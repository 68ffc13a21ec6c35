/** Which calls are followed. At the default rate every wanted call is; and without adaptive mode a
 *  goroutine is followed from its first wanted call until it exits. */
module Admission {
  import opened Wrappers
  import opened TraceEvents
  import opened TraceKernel
  import opened ManagerState
  import opened Accounting
  import opened Goroutines
  import opened Agreement

  lemma RanSnoc(d: Deployment, hits: seq<Hit>, h: Hit)
    ensures Ran(d, hits + [h]) == Fire(d, Ran(d, hits), h)
  {
    assert (hits + [h])[..|hits|] == hits;
  }

  function Entered(h: Hit, rate: nat, start: bool): TraceEvent
    requires h.Enter?
  {
    TraceEvent(h.key, Entry, h.ip, h.bp, h.callerBp, h.timeNs, rate, Flags(start, false, false), h.text)
  }

  /** On a goroutine that is not followed a call begins a sample if and only if its function is wanted,
   *  the draw admits it, as at rate 1 it always does, and fewer than 10000 goroutines are followed.
   *  Then its start is the next event sent; else nothing is. */
  lemma WantedCallStarts(d: Deployment, hits: seq<Hit>, h: Hit)
    requires h.Enter? && h.key !in Ran(d, hits).states
    ensures var s, s' := Ran(d, hits), Ran(d, hits + [h]);
            var rate := if h.denominator > 1 then h.denominator else 1;
            && (h.key in s'.states <==> h.ip in d.tables.wanted && (h.denominator <= 1 || h.lucky) && |s.states| < 10000)
            && (if h.key in s'.states then
                  s'.states == s.states[h.key := TraceState(h.ip, h.ip, h.bp, 1, 1, rate)]
                  && s'.sent == s.sent + [Entered(h, rate, d.tables.adaptive)]
                else s'.states == s.states && s'.sent == s.sent)
  {
    hide Ran;
    RanSnoc(d, hits, h);
    assert Ran(d, hits).states - {h.key} == Ran(d, hits).states;
  }

  /** In a run where nothing was given up the reader then holds just this call, open. */
  lemma ReaderStarts(d: Deployment, hits: seq<Hit>, h: Hit)
    requires Consistent(d) && WellRun(d, hits + [h]) && Spared(Reader(d, Ran(d, hits + [h])))
    requires h.Enter? && h.key !in Ran(d, hits).states && h.key in Ran(d, hits + [h]).states
    ensures var rate := if h.denominator > 1 then h.denominator else 1;
            && h.ip in d.config.probes
            && Of(Reader(d, Ran(d, hits + [h])), h.key)
               == Goroutine([Retained(Entered(h, rate, true), d.config.probes[h.ip], h.text)], [h.ip], false)
  {
    hide Ran, HandledAll, WellRun, Reader, Tidy, Admit;
    LastStep(d, hits, h);
    WantedCallStarts(d, hits, h);
    var s := Ran(d, hits);
    RunLinked(d, hits, h.key);
    RunTidyAt(d, s, h.key);
    ReaderStep(d, s, h, h.key);
    StartsAlone(d, ThreadOf(s, h.key), Of(Reader(d, s), h.key), h, |s.states| < MAX_TRACED);
  }

  lemma StartsAlone(d: Deployment, t: Thread, g: Goroutine, h: Hit, room: bool)
    requires Consistent(d) && Linked(d, None, t, g) && Tidy(g) && h.Enter? && WellNested(d, t, h)
    requires Admit(d.tables, h, room).state.Some?
    ensures var rate := if h.denominator > 1 then h.denominator else 1;
            Read(d, g, Admit(d.tables, h, room))
            == Goroutine([Retained(Entered(h, rate, true), d.config.probes[h.ip], h.text)], [h.ip], false)
  {
    assert g == NOTHING;
  }

  // ---- how long a sample is ----

  /** The events sent of a goroutine since its last start, that one included. */
  function SinceStart(sent: seq<TraceEvent>, key: Key): nat
  {
    if sent == [] then 0
    else
      var before, e := SinceStart(sent[..|sent| - 1], key), sent[|sent| - 1];
      if e.key != key then before else if e.flags.start then 1 else before + 1
  }

  lemma SinceSnoc(sent: seq<TraceEvent>, e: TraceEvent, key: Key)
    ensures SinceStart(sent + [e], key) == if e.key != key then SinceStart(sent, key) else if e.flags.start then 1 else SinceStart(sent, key) + 1
  {
    assert (sent + [e])[..|sent|] == sent;
  }

  ghost predicate Numbered(s: System, key: Key)
  {
    key in s.states ==> s.states[key].eventCount == SinceStart(s.sent, key) && 1 <= s.states[key].eventCount <= 4096
  }

  lemma FireNumbered(d: Deployment, s: System, h: Hit, key: Key)
    requires d.tables.adaptive && Numbered(s, key)
    ensures Numbered(Fire(d, s, h), key)
  {
    hide SinceStart, Advanced;
    var r := Reacts(d.tables, s.states, h);
    if r.event.Some? { SinceSnoc(s.sent, r.event.value, key); }
    FindStored(s.states, h.key, r.state, key);
  }

  /** In adaptive mode no sample gets longer than 4096 events: the next probe of its goroutine, and only
   *  that one, sends an event marked as an abort, and then the goroutine is not followed any more. */
  lemma SamplesAreBounded(d: Deployment, hits: seq<Hit>, h: Hit)
    requires d.tables.adaptive
    ensures Numbered(Ran(d, hits), h.key)
    ensures var s, s' := Ran(d, hits), Ran(d, hits + [h]);
            h.key in s.states && !h.Exit? ==>
              && |s'.sent| == |s.sent| + 1 && s'.sent[..|s.sent|] == s.sent
              && var e := s'.sent[|s.sent|];
                 && e.key == h.key
                 && (e.flags.abort <==> SinceStart(s.sent, h.key) == 4096)
                 && (e.flags.abort ==> h.key !in s'.states && !e.flags.end)
  {
    RunNumbered(d, hits, h.key);
    CutOff(d, hits, h);
  }

  lemma {:induction false} RunNumbered(d: Deployment, hits: seq<Hit>, key: Key)
    requires d.tables.adaptive
    ensures Numbered(Ran(d, hits), key)
  {
    hide Fire, Numbered;
    if hits != [] {
      RunNumbered(d, hits[..|hits| - 1], key);
      FireNumbered(d, Ran(d, hits[..|hits| - 1]), hits[|hits| - 1], key);
    } else {
      NoneNumbered(key);
    }
  }

  lemma NoneNumbered(key: Key)
    ensures Numbered(System(map[], map[], []), key)
  {
  }

  lemma CutOff(d: Deployment, hits: seq<Hit>, h: Hit)
    requires d.tables.adaptive && Numbered(Ran(d, hits), h.key)
    ensures var s, s' := Ran(d, hits), Ran(d, hits + [h]);
            h.key in s.states && !h.Exit? ==>
              && |s'.sent| == |s.sent| + 1 && s'.sent[..|s.sent|] == s.sent
              && var e := s'.sent[|s.sent|];
                 && e.key == h.key
                 && (e.flags.abort <==> SinceStart(s.sent, h.key) == 4096)
                 && (e.flags.abort ==> h.key !in s'.states && !e.flags.end)
  {
    hide Ran, SinceStart, Advanced;
    RanSnoc(d, hits, h);
  }

  // ---- without adaptive mode ----

  /** What is reported of a goroutine: whether it is followed, and every event so far. */
  datatype Report = Report(following: bool, events: seq<TraceEvent>)

  /** A goroutine's probes from its first wanted entry until it exits, each as it fired. */
  function Reported(wanted: set<int>, hits: seq<Hit>, key: Key): Report
  {
    if hits == [] then Report(false, [])
    else
      var r, h := Reported(wanted, hits[..|hits| - 1], key), hits[|hits| - 1];
      if h.key == key then Heard(wanted, r, h) else r
  }

  function Heard(wanted: set<int>, r: Report, h: Hit): Report
  {
    match h
    case Enter(_, ip, _, _, _, _, _, _) =>
      if r.following || ip in wanted then Report(true, r.events + [Entered(h, 1, false)]) else r
    case Leave(key, ip, timeNs, text) =>
      if r.following then Report(true, r.events + [TraceEvent(key, Ret, ip, 0, 0, timeNs, 1, Flags(false, false, false), text)])
      else r
    case Exit(key) =>
      if r.following then
        Report(false, r.events + [TraceEvent(key, GoroutineExit, 0, 0, 0, 0, 0, Flags(false, false, false), "")])
      else r
  }

  function Keys(hits: seq<Hit>): set<Key>
  {
    set i | 0 <= i < |hits| :: hits[i].key
  }

  /** The default rate, for at most as many goroutines as can be followed. */
  ghost predicate Roomy(hits: seq<Hit>)
  {
    |Keys(hits)| <= 10000 && forall i | 0 <= i < |hits| && hits[i].Enter? :: hits[i].denominator <= 1
  }

  ghost predicate Follows(s: System, key: Key, r: Report)
  {
    && (key in s.states <==> r.following)
    && (key in s.states ==> s.states[key].denominator == 1)
    && Only(s.sent, key) == r.events
  }

  /** Without adaptive mode, at the default rate, exactly the events of the goroutine's own probes are
   *  sent, from its first wanted entry until it exits, in order and without any flag. */
  lemma {:induction false} PlainRunReports(d: Deployment, hits: seq<Hit>, key: Key)
    requires !d.tables.adaptive && Roomy(hits)
    ensures Follows(Ran(d, hits), key, Reported(d.tables.wanted, hits, key))
    ensures Ran(d, hits).states.Keys <= Keys(hits)
  {
    if hits != [] {
      hide Fire, Follows, Heard;
      var before, h := hits[..|hits| - 1], hits[|hits| - 1];
      FewerKeys(before, h);
      assert before + [h] == hits;
      PlainRunReports(d, before, key);
      var s := Ran(d, before);
      if h.key !in s.states { RoomFor(s.states, Keys(hits), h.key); }
      PlainStep(d, s, h, key, Reported(d.tables.wanted, before, key));
    }
  }

  lemma FewerKeys(before: seq<Hit>, h: Hit)
    ensures Keys(before + [h]) == Keys(before) + {h.key} && |Keys(before)| <= |Keys(before + [h])|
  {
    var hits := before + [h];
    assert forall i | 0 <= i < |before| :: hits[i] == before[i];
    assert hits[|before|] == h;
    forall k | k in Keys(before) + {h.key}
      ensures k in Keys(hits)
    {
      if k != h.key {
        var i :| 0 <= i < |before| && before[i].key == k;
        assert hits[i].key == k;
      }
    }
    Subsets(Keys(before), Keys(hits));
  }

  lemma {:induction false} Subsets<T>(a: set<T>, b: set<T>)
    requires a <= b
    ensures |a| <= |b|
  {
    assert b == a + (b - a);
  }

  lemma RoomFor(states: map<Key, TraceState>, keys: set<Key>, key: Key)
    requires states.Keys <= keys && key in keys && key !in states && |keys| <= 10000
    ensures |states| < MAX_TRACED
  {
    Subsets(states.Keys + {key}, keys);
    assert |states.Keys + {key}| == |states.Keys| + 1;
  }

  lemma OnlySnoc(evs: seq<TraceEvent>, e: TraceEvent, key: Key)
    ensures Only(evs + [e], key) == if e.key == key then Only(evs, key) + [e] else Only(evs, key)
  {
    assert (evs + [e])[..|evs|] == evs;
  }

  lemma PlainStep(d: Deployment, s: System, h: Hit, key: Key, r: Report)
    requires !d.tables.adaptive && Follows(s, key, r)
    requires h.Enter? ==> h.denominator <= 1
    requires h.key !in s.states ==> |s.states| < MAX_TRACED
    ensures Follows(Fire(d, s, h), key, if h.key == key then Heard(d.tables.wanted, r, h) else r)
    ensures Fire(d, s, h).states.Keys <= s.states.Keys + {h.key}
  {
    hide Only, Advanced;
    var e := Reacts(d.tables, s.states, h).event;
    if e.Some? { OnlySnoc(s.sent, e.value, key); }
    FindStored(s.states, h.key, Reacts(d.tables, s.states, h).state, key);
  }

  // ---- what the reader makes of that ----

  ghost predicate PlainlySet(d: Deployment)
  {
    !d.tables.adaptive && !d.config.adaptive && d.sites <= d.config.probes.Keys
  }

  /** The fewest calls the goroutine has been inside of since it is followed, without its first. */
  function Lowest(d: Deployment, hits: seq<Hit>, key: Key): nat
  {
    if hits == [] then 0
    else
      var before, h := hits[..|hits| - 1], hits[|hits| - 1];
      if h.key == key then
        LowestAfter(Lowest(d, before, key), Reported(d.tables.wanted, before, key).following, |Moved(ThreadOf(Ran(d, before), key), h).calls|)
      else Lowest(d, before, key)
  }

  function LowestAfter(low: nat, following: bool, calls: nat): nat
  {
    if !following then Minus(calls, 1) else if calls < low then calls else low
  }

  /** The observed stack is the calls above the lowest, and nothing is held when there are none. */
  ghost predicate PlainLinked(following: bool, low: nat, t: Thread, g: Goroutine)
  {
    && Consequent(t) && (!following ==> g == NOTHING)
    && (following ==>
          && low <= |t.calls| && g.stack == t.calls[low..] && !g.invalid
          && (g.events == [] <==> low == |t.calls|) && (t.entered.Some? ==> g.events != []) && Remembers(t, g))
  }

  ghost predicate Remembers(t: Thread, g: Goroutine)
  {
    g.events != [] ==>
      match Last(g).location
      case Entry => t.entered.Some? && Last(g).ip == t.entered.value.ip && Last(g).bp == t.entered.value.bp
      case Ret => t.entered.None? && Last(g).bp == 0
      case GoroutineExit => false
  }

  ghost predicate PlainAt(d: Deployment, hits: seq<Hit>, key: Key)
  {
    var s := Ran(d, hits);
    PlainLinked(Reported(d.tables.wanted, hits, key).following, Lowest(d, hits, key), ThreadOf(s, key), Of(Reader(d, s), key))
  }

  lemma PlainRead(d: Deployment, following: bool, low: nat, t: Thread, g: Goroutine, h: Hit, k: Option<TraceState>, room: bool)
    requires PlainlySet(d) && WellNested(d, t, h) && PlainLinked(following, low, t, g) && Tidy(g)
    requires (k.Some? <==> following) && (k.None? ==> room) && (h.Enter? ==> h.denominator <= 1)
    ensures var r := React(d.tables, k, h, room);
            PlainLinked(Heard(d.tables.wanted, Report(following, []), h).following, LowestAfter(low, following, |Moved(t, h).calls|),
                        Advanced(t, h, k, r.state), Read(d, g, r))
  {
    match h
    case Enter(_, _, _, _, _, _, _, _) => PlainEntry(d, following, low, t, g, h, k, room);
    case Leave(_, _, _, _) => PlainReturn(d, following, low, t, g, h, k, room);
    case Exit(_) =>
  }

  lemma PlainEntry(d: Deployment, following: bool, low: nat, t: Thread, g: Goroutine, h: Hit, k: Option<TraceState>, room: bool)
    requires PlainlySet(d) && WellNested(d, t, h) && PlainLinked(following, low, t, g) && Tidy(g)
    requires (k.Some? <==> following) && (k.None? ==> room) && h.Enter? && h.denominator <= 1
    ensures var r := React(d.tables, k, h, room);
            PlainLinked(following || h.ip in d.tables.wanted, LowestAfter(low, following, |Moved(t, h).calls|),
                        Advanced(t, h, k, r.state), Read(d, g, r))
  {
    hide PlainLinked, Read, Tidy, WellNested;
    if following {
      PlainFollow(d, low, t, g, h, k.value);
    } else {
      PlainAdmit(d, t, g, h, low);
    }
  }

  lemma PlainAdmit(d: Deployment, t: Thread, g: Goroutine, h: Hit, low: nat)
    requires PlainlySet(d) && WellNested(d, t, h) && PlainLinked(false, low, t, g) && h.Enter? && h.denominator <= 1
    ensures var r := Admit(d.tables, h, true);
            PlainLinked(h.ip in d.tables.wanted, Minus(|Moved(t, h).calls|, 1), Advanced(t, h, None, r.state), Read(d, g, r))
  {
    hide Read, Admit;
    PlainStart(d, h);
    if h.ip in d.tables.wanted {
      var calls := Moved(t, h).calls;
      assert calls[|calls| - 1..] == [h.ip];
    }
  }

  lemma PlainStart(d: Deployment, h: Hit)
    requires PlainlySet(d) && h.Enter? && h.ip in d.config.probes && h.denominator <= 1
    ensures var r := Admit(d.tables, h, true);
            && (r.state.Some? <==> h.ip in d.tables.wanted)
            && Read(d, NOTHING, r) == if h.ip !in d.tables.wanted then NOTHING
                                      else Goroutine([Retained(Entered(h, 1, false), d.config.probes[h.ip], h.text)], [h.ip], false)
  {
  }

  lemma PlainFollow(d: Deployment, low: nat, t: Thread, g: Goroutine, h: Hit, k: TraceState)
    requires PlainlySet(d) && WellNested(d, t, h) && PlainLinked(true, low, t, g) && Tidy(g) && h.Enter?
    ensures var r := FollowEntry(d.tables, k, h);
            PlainLinked(true, low, Advanced(t, h, Some(k), r.state), Read(d, g, r)) && |Moved(t, h).calls| >= low
  {
    if !Repeated(t, h) {
      assert (t.calls + [h.ip])[low..] == t.calls[low..] + [h.ip];
    }
  }

  lemma PlainReturn(d: Deployment, following: bool, low: nat, t: Thread, g: Goroutine, h: Hit, k: Option<TraceState>, room: bool)
    requires PlainlySet(d) && WellNested(d, t, h) && PlainLinked(following, low, t, g) && Tidy(g)
    requires (k.Some? <==> following) && h.Leave?
    ensures var r := React(d.tables, k, h, room);
            PlainLinked(following, LowestAfter(low, following, |Moved(t, h).calls|), Advanced(t, h, k, r.state), Read(d, g, r))
  {
    if following && g.events != [] {
      assert t.calls[low..][..|t.calls| - low - 1] == t.calls[..|t.calls| - 1][low..];
    }
  }

  /** Without adaptive mode nothing but its own events changes what is held of a goroutine. */
  lemma PlainReader(d: Deployment, s: System, h: Hit, key: Key)
    requires PlainlySet(d)
    ensures Of(Reader(d, Fire(d, s, h)), key)
         == if key == h.key then Read(d, Of(Reader(d, s), key), Reacts(d.tables, s.states, h)) else Of(Reader(d, s), key)
    ensures Tidy(Of(Reader(d, s), key))
  {
    hide React, Advanced, Handled, HandledAll, Silenced, Stored, Step, AllTidy;
    var r := Reacts(d.tables, s.states, h);
    RunTidyAt(d, s, key);
    if r.event.Some? {
      ReactKey(d.tables, Find(s.states, h.key), h, |s.states| < MAX_TRACED);
      RunTidy(d.config, s.sent);
      MemoryAccountingIsExact(d.config, s.sent);
      SentSnoc(d, s.sent, r.event.value);
      HandleOf(Reader(d, s), r.event.value, key);
    }
  }

  lemma {:induction false} PlainRunLinked(d: Deployment, hits: seq<Hit>, key: Key)
    requires PlainlySet(d) && WellRun(d, hits) && Roomy(hits)
    ensures PlainAt(d, hits, key)
  {
    if hits != [] {
      hide PlainAt, PlainlySet, WellNested, Ran, Roomy;
      var before, h := hits[..|hits| - 1], hits[|hits| - 1];
      assert before + [h] == hits;
      RoomyBefore(before, h);
      PlainRunLinked(d, before, key);
      PlainFire(d, before, h, key);
    } else {
      assert Of(Reader(d, Ran(d, [])), key) == NOTHING;
    }
  }

  lemma RoomyBefore(before: seq<Hit>, h: Hit)
    requires Roomy(before + [h])
    ensures Roomy(before) && |Keys(before + [h])| <= 10000 && (h.Enter? ==> h.denominator <= 1)
    ensures Keys(before) <= Keys(before + [h]) && h.key in Keys(before + [h])
  {
    var hits := before + [h];
    FewerKeys(before, h);
    assert hits[|before|] == h && forall i | 0 <= i < |before| :: hits[i] == before[i];
  }

  lemma PlainFire(d: Deployment, before: seq<Hit>, h: Hit, key: Key)
    requires PlainlySet(d) && WellNested(d, ThreadOf(Ran(d, before), h.key), h) && PlainAt(d, before, key)
    requires Roomy(before + [h])
    ensures PlainAt(d, before + [h], key)
  {
    hide Heard, Reader, WellNested, PlainLinked, Tidy, LowestAfter, Advanced, React, Read, Moved, Ran, Roomy, Keys, Stored;
    var s := Ran(d, before);
    RanSnoc(d, before, h);
    assert (before + [h])[..|before|] == before;
    RoomyBefore(before, h);
    PlainRunReports(d, before, key);
    if h.key !in s.states { RoomFor(s.states, Keys(before + [h]), h.key); }
    PlainReader(d, s, h, key);
    FindStored(s.states, h.key, Reacts(d.tables, s.states, h).state, key);
    if key == h.key {
      var r := Reported(d.tables.wanted, before, key);
      HeardFollowing(d.tables.wanted, r, h);
      PlainRead(d, r.following, Lowest(d, before, key), ThreadOf(s, key), Of(Reader(d, s), key), h, Find(s.states, key), |s.states| < MAX_TRACED);
    }
  }

  lemma HeardFollowing(wanted: set<int>, r: Report, h: Hit)
    ensures Heard(wanted, r, h).following == Heard(wanted, Report(r.following, []), h).following
  {
  }

  /** So in every well nested run without adaptive mode the stack the reader shows of a goroutine is
   *  exactly the calls it is inside of above the lowest point since it is followed; it holds nothing
   *  when there are none, and nothing of a goroutine that is not followed. */
  lemma PlainStackIsTrue(d: Deployment, hits: seq<Hit>, key: Key)
    requires PlainlySet(d) && WellRun(d, hits) && Roomy(hits)
    ensures var t, g, low := ThreadOf(Ran(d, hits), key), Of(Reader(d, Ran(d, hits)), key), Lowest(d, hits, key);
            if Reported(d.tables.wanted, hits, key).following then
              low <= |t.calls| && g.stack == t.calls[low..] && !g.invalid && (g.events == [] <==> g.stack == [])
            else g == NOTHING
  {
    hide Reader, Ran, WellRun, Lowest, Reported, Roomy;
    PlainRunLinked(d, hits, key);
  }
}
