/** What a sample is recorded as: both state machines together, against the calls a goroutine really
 *  makes. */
module CallTrees {
  import opened Wrappers
  import opened TraceEvents
  import opened TraceKernel
  import opened ManagerState
  import opened Accounting
  import opened Goroutines
  import opened Agreement
  import Samples

  // ---- what the goroutine really does ----

  /** A finished call: the function entered and when, the calls made inside, the address it returned
   *  from, when, and with what results. */
  datatype TrueCall = TrueCall(ip: int, since: int, inner: seq<TrueCall>, at: int, left: int, results: string)

  /** A call the goroutine is inside of. */
  datatype Inside = Inside(ip: int, since: int, inner: seq<TrueCall>)

  function Returned(o: Inside, h: Hit): TrueCall
    requires h.Leave?
  {
    TrueCall(o.ip, o.since, o.inner, h.ip, h.timeNs, h.text)
  }

  /** Leaving the innermost call, which is then a finished call of the one around it. */
  function Left(open: seq<Inside>, h: Hit): seq<Inside>
    requires h.Leave?
  {
    var n := |open| - 1;
    if n <= 0 then []
    else open[..n - 1] + [open[n - 1].(inner := open[n - 1].inner + [Returned(open[n], h)])]
  }

  /** A probe of the goroutine. An entry probe that fires again only sets the time anew. */
  function Climbed(open: seq<Inside>, t: Thread, h: Hit): seq<Inside>
  {
    match h
    case Enter(_, ip, _, _, timeNs, _, _, _) =>
      if open != [] && Repeated(t, h) then open[|open| - 1 := open[|open| - 1].(since := timeNs)]
      else open + [Inside(ip, timeNs, [])]
    case Leave(_, _, _, _) => Left(open, h)
    case Exit(_) => []
  }

  /** The calls a goroutine is inside of, each with the calls finished inside it. */
  function TreeOf(d: Deployment, hits: seq<Hit>, key: Key): seq<Inside>
  {
    if hits == [] then []
    else
      var before, h := hits[..|hits| - 1], hits[|hits| - 1];
      var open := TreeOf(d, before, key);
      if h.key == key then Climbed(open, ThreadOf(Ran(d, before), key), h) else open
  }

  /** The tree is that of the goroutine's calls. */
  ghost predicate Shaped(t: Thread, open: seq<Inside>)
  {
    && |open| == |t.calls|
    && (forall i | 0 <= i < |open| :: open[i].ip == t.calls[i])
    && (t.entered.Some? && open != [] ==> open[|open| - 1].inner == [])
  }

  // ---- what is owed to it ----

  /** One record for each call, when it returns: the function's name, the time from its entry to its
   *  return, its results, and the weight of the sample. */
  function Owed(config: Config, calls: seq<TrueCall>, weight: nat): seq<CallRecord>
  {
    if calls == [] then []
    else
      var c := calls[|calls| - 1];
      Owed(config, calls[..|calls| - 1], weight) + Owed(config, c.inner, weight) + [OwedFor(config, c, weight)]
  }

  function OwedFor(config: Config, c: TrueCall, weight: nat): CallRecord
  {
    CallRecord(if c.at in config.probes then config.probes[c.at].funcname else "", Between(c.since, c.left), c.results, weight)
  }

  /** The calls in the trees. */
  function CallCount(calls: seq<TrueCall>): nat
  {
    if calls == [] then 0 else CallCount(calls[..|calls| - 1]) + CallCount(calls[|calls| - 1].inner) + 1
  }

  /** Every call returned from the function it entered. */
  ghost predicate Closed(config: Config, calls: seq<TrueCall>)
  {
    calls != [] ==>
      var c := calls[|calls| - 1];
      && Closed(config, calls[..|calls| - 1]) && Closed(config, c.inner)
      && c.at in config.probes && config.probes[c.at].entry == c.ip
  }

  lemma {:induction false} OneEach(config: Config, calls: seq<TrueCall>, weight: nat)
    ensures |Owed(config, calls, weight)| == CallCount(calls)
  {
    if calls != [] {
      OneEach(config, calls[..|calls| - 1], weight);
      OneEach(config, calls[|calls| - 1].inner, weight);
    }
  }

  lemma OwedSnoc(config: Config, calls: seq<TrueCall>, c: TrueCall, weight: nat)
    ensures Owed(config, calls + [c], weight) == Owed(config, calls, weight) + Owed(config, c.inner, weight) + [OwedFor(config, c, weight)]
    ensures Closed(config, calls + [c])
       <==> Closed(config, calls) && Closed(config, c.inner) && c.at in config.probes && config.probes[c.at].entry == c.ip
  {
    assert (calls + [c])[..|calls|] == calls;
  }

  function OpenFrames(open: seq<Inside>, weight: nat): seq<Frame>
  {
    if open == [] then []
    else OpenFrames(open[..|open| - 1], weight) + [Frame(open[|open| - 1].ip, open[|open| - 1].since, weight)]
  }

  function OpenOwed(config: Config, open: seq<Inside>, weight: nat): seq<CallRecord>
  {
    if open == [] then []
    else OpenOwed(config, open[..|open| - 1], weight) + Owed(config, open[|open| - 1].inner, weight)
  }

  ghost predicate AllClosed(config: Config, open: seq<Inside>)
  {
    forall i | 0 <= i < |open| :: Closed(config, open[i].inner)
  }

  lemma OpenSnoc(config: Config, open: seq<Inside>, o: Inside, weight: nat)
    ensures OpenFrames(open + [o], weight) == OpenFrames(open, weight) + [Frame(o.ip, o.since, weight)]
    ensures OpenOwed(config, open + [o], weight) == OpenOwed(config, open, weight) + Owed(config, o.inner, weight)
  {
    assert (open + [o])[..|open|] == open;
  }

  /** The replay of what is retained has these calls open and has recorded those finished inside. */
  ghost predicate Replays(config: Config, r: Replay, open: seq<Inside>, weight: nat)
  {
    r == Replay(OpenFrames(open, weight), OpenOwed(config, open, weight), true)
  }

  lemma ReplayEntry(config: Config, r: Replay, open: seq<Inside>, weight: nat, e: Retained)
    requires Replays(config, r, open, weight) && e.event.location == Entry && SampleWeight(e.event.denominator) == weight
    ensures Replays(config, ReplayStep(r, e), open + [Inside(e.event.ip, e.event.timeNs, [])], weight)
  {
    OpenSnoc(config, open, Inside(e.event.ip, e.event.timeNs, []), weight);
  }

  /** The last entry taken for the same one, later. */
  lemma ReplayAgain(config: Config, r: Replay, last: Retained, open: seq<Inside>, weight: nat, ev: TraceEvent)
    requires Replays(config, ReplayStep(r, last), open, weight) && last.event.location == Entry == ev.location
    requires open != [] && open[|open| - 1].inner == [] && ev.ip == open[|open| - 1].ip && SampleWeight(ev.denominator) == weight
    ensures Replays(config, ReplayStep(r, last.(event := ev)), open[|open| - 1 := open[|open| - 1].(since := ev.timeNs)], weight)
  {
    var n := |open| - 1;
    var again := open[n].(since := ev.timeNs);
    assert open[..n] + [open[n]] == open && open[..n] + [again] == open[n := again];
    OpenSnoc(config, open[..n], open[n], weight);
    OpenSnoc(config, open[..n], again, weight);
    var f := ReplayStep(r, last).frames;
    assert f[..|f| - 1] == r.frames && f[..|f| - 1] == OpenFrames(open[..n], weight);
  }

  ghost predicate ReturnOf(config: Config, e: Retained, h: Hit, o: Inside)
  {
    && h.Leave? && h.ip in config.probes && config.probes[h.ip].entry == o.ip
    && e.event.location == Ret && e.event.timeNs == h.timeNs && e.probe == config.probes[h.ip] && e.text == h.text
  }

  /** A return records the innermost open call. */
  lemma ReplayReturn(config: Config, r: Replay, open: seq<Inside>, weight: nat, e: Retained, h: Hit)
    requires Replays(config, r, open, weight) && open != [] && ReturnOf(config, e, h, open[|open| - 1])
    ensures |open| > 1 ==> Replays(config, ReplayStep(r, e), Left(open, h), weight)
    ensures |open| == 1 ==> ReplayStep(r, e).records == Owed(config, [Returned(open[0], h)], weight)
  {
    hide Owed, OpenFrames, OpenOwed, Closed, Elapsed, Between;
    ElapsedIsBetween(open[|open| - 1].since, h.timeNs);
    var n := |open| - 1;
    var c := Returned(open[n], h);
    assert open[..n] + [open[n]] == open;
    OpenSnoc(config, open[..n], open[n], weight);
    assert OpenFrames(open, weight)[..|OpenFrames(open, weight)| - 1] == OpenFrames(open[..n], weight);
    assert ReplayStep(r, e).records == OpenOwed(config, open, weight) + [OwedFor(config, c, weight)];
    if n == 0 {
      OwedSnoc(config, [], c, weight);
      NothingOwed(config, weight);
      assert [] + [c] == [c] && open[..0] == [];
    } else {
      var outer := open[n - 1];
      var grown := outer.(inner := outer.inner + [c]);
      assert open[..n - 1] + [outer] == open[..n];
      OpenSnoc(config, open[..n - 1], outer, weight);
      OpenSnoc(config, open[..n - 1], grown, weight);
      OwedSnoc(config, outer.inner, c, weight);
    }
  }

  lemma NothingOwed(config: Config, weight: nat)
    ensures Owed(config, [], weight) == [] && OpenOwed(config, [], weight) == [] && OpenFrames([], weight) == []
  {
  }

  // ---- the reader against the tree ----

  /** The reader's replay of what it retains is the tree from the sample's root on. */
  ghost predicate Mirrored(d: Deployment, k: Option<TraceState>, t: Thread, open: seq<Inside>, g: Goroutine)
  {
    && Shaped(t, open) && AllClosed(d.config, open)
    && (g.events != [] ==> Retains(d, k, t, open, g))
  }

  ghost predicate Retains(d: Deployment, k: Option<TraceState>, t: Thread, open: seq<Inside>, g: Goroutine)
  {
    && k.Some? && t.base < |open|
    && Replays(d.config, Replayed(g.events), open[t.base..], SampleWeight(k.value.denominator))
  }

  lemma ShapedStep(d: Deployment, k: Option<TraceState>, t: Thread, open: seq<Inside>, h: Hit, now: Option<TraceState>)
    requires Shaped(t, open) && AllClosed(d.config, open) && Consequent(t) && WellNested(d, t, h)
    ensures Shaped(Advanced(t, h, k, now), Climbed(open, t, h)) && AllClosed(d.config, Climbed(open, t, h))
  {
    hide Closed, Owed, OwedFor;
    if h.Enter? {
      EnteredClosed(d.config, open, t, h);
    } else if h.Leave? {
      LeftClosed(d.config, open, h);
    }
  }

  lemma EnteredClosed(config: Config, open: seq<Inside>, t: Thread, h: Hit)
    requires AllClosed(config, open) && h.Enter?
    ensures AllClosed(config, Climbed(open, t, h))
  {
    hide Repeated;
    assert Closed(config, []);
  }

  lemma LeftClosed(config: Config, open: seq<Inside>, h: Hit)
    requires AllClosed(config, open) && h.Leave? && h.ip in config.probes
    requires open != [] ==> config.probes[h.ip].entry == open[|open| - 1].ip
    ensures AllClosed(config, Left(open, h))
  {
    hide Closed, Owed, OwedFor;
    var n := |open| - 1;
    if n > 0 {
      OwedSnoc(config, open[n - 1].inner, Returned(open[n], h), 0);
      assert Closed(config, open[n - 1].inner) && Closed(config, open[n].inner);
    }
  }

  /** The first entry of a sample. */
  lemma RetainsStart(d: Deployment, t: Thread, open: seq<Inside>, g: Goroutine, h: Hit, room: bool)
    requires Consistent(d) && Shaped(t, open) && Consequent(t) && ReaderRight(None, t, g) && Tidy(g)
    requires h.Enter? && WellNested(d, t, h)
    ensures var r := Admit(d.tables, h, room);
            Read(d, g, r).events != [] ==> Retains(d, r.state, Advanced(t, h, None, r.state), Climbed(open, t, h), Read(d, g, r))
  {
    hide Replays;
    assert g == NOTHING;
    var r := Admit(d.tables, h, room);
    if r.event.Some? {
      var ev := r.event.value;
      var e := Retained(ev, d.config.probes[ev.ip], ev.text);
      var t', open' := Advanced(t, h, None, r.state), Climbed(open, t, h);
      assert Read(d, g, r).events == [e];
      assert open'[t'.base..] == [] + [Inside(h.ip, h.timeNs, [])];
      Alone(d.config, SampleWeight(ev.denominator), e);
    }
  }

  lemma Alone(config: Config, weight: nat, e: Retained)
    requires e.event.location == Entry && SampleWeight(e.event.denominator) == weight
    ensures Replays(config, Replayed([e]), [] + [Inside(e.event.ip, e.event.timeNs, [])], weight)
  {
    NothingOwed(config, weight);
    assert [e][..0] == [];
    ReplayEntry(config, Replayed([]), [], weight, e);
  }

  /** The last entry again, later. */
  lemma RetainsAgain(d: Deployment, k: TraceState, t: Thread, open: seq<Inside>, g: Goroutine, h: Hit)
    requires Shaped(t, open) && Retains(d, Some(k), t, open, g) && g.events != []
    requires h.Enter? && Repeated(t, h) && Consequent(t) && Last(g).location == Entry
    ensures var ev := EntryEvent(h, k.denominator, NO_FLAGS);
            var n := |g.events| - 1;
            Replays(d.config, Replayed(g.events[n := g.events[n].(event := ev)]), Climbed(open, t, h)[t.base..], SampleWeight(k.denominator))
  {
    hide Replayed, ReplayStep, Replays;
    var ev, n := EntryEvent(h, k.denominator, NO_FLAGS), |g.events| - 1;
    var last := g.events[n];
    assert g.events == g.events[..n] + [last];
    Samples.ReplaySnoc(g.events[..n], last);
    Samples.ReplaySnoc(g.events[..n], last.(event := ev));
    assert g.events[n := last.(event := ev)] == g.events[..n] + [last.(event := ev)];
    var sample := open[t.base..];
    ReplayAgain(d.config, Replayed(g.events[..n]), last, sample, SampleWeight(k.denominator), ev);
    assert sample[|sample| - 1 := open[|open| - 1].(since := h.timeNs)] == Climbed(open, t, h)[t.base..];
  }

  /** A further entry, or the last one again. */
  lemma RetainsEntry(d: Deployment, k: TraceState, t: Thread, open: seq<Inside>, g: Goroutine, h: Hit)
    requires Consistent(d) && Linked(d, Some(k), t, g) && Shaped(t, open) && Retains(d, Some(k), t, open, g)
    requires g.events != [] && h.Enter? && WellNested(d, t, h)
    ensures var r := FollowEntry(d.tables, k, h);
            Read(d, g, r).events != [] ==> Retains(d, r.state, Advanced(t, h, Some(k), r.state), Climbed(open, t, h), Read(d, g, r))
  {
    hide Replays, Replayed;
    var r := FollowEntry(d.tables, k, h);
    if !Overflows(d.tables, k) {
      SameRepeats(d, k, t, g, h);
      if Repeated(t, h) {
        RetainsAgain(d, k, t, open, g, h);
      } else {
        var e := Retained(r.event.value, d.config.probes[h.ip], h.text);
        Samples.ReplaySnoc(g.events, e);
        ReplayEntry(d.config, Replayed(g.events), open[t.base..], SampleWeight(k.denominator), e);
        assert open[t.base..] + [Inside(h.ip, h.timeNs, [])] == Climbed(open, t, h)[t.base..];
      }
    }
  }

  /** A return of the sample. */
  lemma RetainsReturn(d: Deployment, k: TraceState, t: Thread, open: seq<Inside>, g: Goroutine, h: Hit)
    requires Consistent(d) && Linked(d, Some(k), t, g) && Shaped(t, open) && Retains(d, Some(k), t, open, g)
    requires g.events != [] && h.Leave? && WellNested(d, t, h) && !Overflows(d.tables, k)
    ensures var r := FollowReturn(d.tables, k, h);
            var es := Taken(d.config, g, r.event.value).events;
            if r.event.value.flags.end then
              open != [] && Replayed(es).records == Owed(d.config, [Returned(open[|open| - 1], h)], SampleWeight(k.denominator))
            else Retains(d, r.state, Advanced(t, h, Some(k), r.state), Climbed(open, t, h), g.(events := es))
  {
    hide Replays, Replayed, Consistent, Owed, Taken, Sample, Linked;
    var ev, w := FollowReturn(d.tables, k, h).event.value, SampleWeight(k.denominator);
    var e := Retained(ev, d.config.probes[ev.ip], ev.text);
    ReturnTaken(d, k, t, g, h);
    EndsWithRoot(d, k, t, open, g, h);
    Samples.ReplaySnoc(g.events, e);
    var sample := open[t.base..];
    ReplayReturn(d.config, Replayed(g.events), sample, w, e, h);
    if |sample| > 1 { assert Left(sample, h) == Left(open, h)[t.base..]; }
  }

  /** A return is never taken for a repeat. */
  lemma ReturnTaken(d: Deployment, k: TraceState, t: Thread, g: Goroutine, h: Hit)
    requires Linked(d, Some(k), t, g) && g.events != [] && h.Leave? && WellNested(d, t, h) && !Overflows(d.tables, k)
    ensures var ev := FollowReturn(d.tables, k, h).event.value;
            && ev.location == Ret && ev.ip == h.ip && ev.timeNs == h.timeNs && ev.text == h.text
            && Taken(d.config, g, ev).events == g.events + [Retained(ev, d.config.probes[ev.ip], ev.text)]
  {
    hide KernelRight, ReturnsFromRoot;
  }

  lemma EndsWithRoot(d: Deployment, k: TraceState, t: Thread, open: seq<Inside>, g: Goroutine, h: Hit)
    requires Consistent(d) && Linked(d, Some(k), t, g) && Shaped(t, open) && t.base < |open|
    requires h.Leave? && WellNested(d, t, h) && !Overflows(d.tables, k)
    ensures FollowReturn(d.tables, k, h).event.value.flags.end <==> |open| - t.base == 1
  {
    hide ReaderRight, FollowReturn, Consistent, KernelRight, WellNested;
    ReturnKeeps(d, k, t, h);
  }

  lemma RetainsStep(d: Deployment, k: Option<TraceState>, t: Thread, open: seq<Inside>, g: Goroutine, h: Hit, room: bool)
    requires Consistent(d) && Linked(d, k, t, g) && Tidy(g) && WellNested(d, t, h)
    requires Shaped(t, open) && (g.events != [] ==> Retains(d, k, t, open, g))
    ensures var r := React(d.tables, k, h, room);
            Read(d, g, r).events != [] ==> Retains(d, r.state, Advanced(t, h, k, r.state), Climbed(open, t, h), Read(d, g, r))
  {
    hide Shaped, Retains, Consistent, WellNested, Climbed, Advanced, FollowEntry, FollowReturn, Admit, Overflows;
    match h
    case Enter(_, _, _, _, _, _, _, _) =>
      if k.None? {
        RetainsStart(d, t, open, g, h, room);
      } else if g.events != [] {
        RetainsEntry(d, k.value, t, open, g, h);
      } else {
        StaysEmpty(d, k.value, g, h);
      }
    case Leave(_, _, _, _) =>
      if k.Some? { RetainsLeave(d, k.value, t, open, g, h); } else { ReadNothing(d, t, g, h); }
    case Exit(_) =>
      if k.Some? { ReadExit(d, k.value, t, g, h); } else { ReadNothing(d, t, g, h); }
  }

  /** What is not a start opens nothing. */
  lemma StaysEmpty(d: Deployment, k: TraceState, g: Goroutine, h: Hit)
    requires Consistent(d) && Tidy(g) && g.events == [] && !h.Exit?
    ensures Read(d, g, React(d.tables, Some(k), h, true)).events == []
  {
  }

  lemma RetainsLeave(d: Deployment, k: TraceState, t: Thread, open: seq<Inside>, g: Goroutine, h: Hit)
    requires Consistent(d) && Linked(d, Some(k), t, g) && Tidy(g) && h.Leave? && WellNested(d, t, h)
    requires Shaped(t, open) && (g.events != [] ==> Retains(d, Some(k), t, open, g))
    ensures var r := FollowReturn(d.tables, k, h);
            Read(d, g, r).events != [] ==> Retains(d, r.state, Advanced(t, h, Some(k), r.state), Climbed(open, t, h), Read(d, g, r))
  {
    hide Shaped, Climbed, Linked, WellNested, Replays, Replayed, Advanced;
    if g.events == [] {
      StaysEmpty(d, k, g, h);
    } else if !Overflows(d.tables, k) {
      RetainsReturn(d, k, t, open, g, h);
      EndsOrStays(d, k, t, g, h);
    }
  }

  lemma EndsOrStays(d: Deployment, k: TraceState, t: Thread, g: Goroutine, h: Hit)
    requires Consistent(d) && Linked(d, Some(k), t, g) && g.events != [] && h.Leave? && WellNested(d, t, h) && !Overflows(d.tables, k)
    ensures var r := FollowReturn(d.tables, k, h);
            if r.event.value.flags.end then Read(d, g, r) == NOTHING
            else Read(d, g, r) == Taken(d.config, g, r.event.value)
  {
    EndIsEmpty(d, k, t, g, h);
  }

  // ---- the whole system ----

  ghost predicate MirroredAt(d: Deployment, hits: seq<Hit>, key: Key)
  {
    var s := Ran(d, hits);
    Mirrored(d, Find(s.states, key), ThreadOf(s, key), TreeOf(d, hits, key), Of(Reader(d, s), key))
  }

  lemma FireMirrored(d: Deployment, hits: seq<Hit>, h: Hit, key: Key)
    requires Consistent(d) && WellRun(d, hits + [h]) && MirroredAt(d, hits, key)
    ensures MirroredAt(d, hits + [h], key)
  {
    hide Ran, WellRun, Consistent, Linked, WellNested, React, Advanced, Stored, Read, Tidy, Reader, Climbed, Shaped, AllClosed, Retains, Spared, Grown;
    LastStep(d, hits, h);
    assert (hits + [h])[..|hits|] == hits;
    var s := Ran(d, hits);
    var t, open, g := ThreadOf(s, key), TreeOf(d, hits, key), Of(Reader(d, s), key);
    var r := Reacts(d.tables, s.states, h);
    FindStored(s.states, h.key, r.state, key);
    RunLinked(d, hits, key);
    ReaderStep(d, s, h, key);
    RunTidyAt(d, s, key);
    if key == h.key {
      LinkedConsequent(d, Find(s.states, key), t, g);
      ShapedStep(d, Find(s.states, key), t, open, h, r.state);
      RetainsStep(d, Find(s.states, key), t, open, g, h, |s.states| < MAX_TRACED);
    }
  }

  lemma LinkedConsequent(d: Deployment, k: Option<TraceState>, t: Thread, g: Goroutine)
    requires Linked(d, k, t, g)
    ensures Consequent(t)
  {
  }

  lemma {:induction false} RunMirrored(d: Deployment, hits: seq<Hit>, key: Key)
    requires Consistent(d) && WellRun(d, hits)
    ensures MirroredAt(d, hits, key)
  {
    if hits == [] {
      assert Of(Reader(d, Ran(d, [])), key) == NOTHING;
    } else {
      hide MirroredAt, Consistent, WellNested, Ran;
      var before, h := hits[..|hits| - 1], hits[|hits| - 1];
      assert hits == before + [h];
      RunMirrored(d, before, key);
      FireMirrored(d, before, h, key);
    }
  }

  lemma EndsInReturn(tables: Tables, k: Option<TraceState>, h: Hit, room: bool)
    requires var e := React(tables, k, h, room).event; e.Some? && e.value.flags.end
    ensures k.Some? && h.Leave? && !Overflows(tables, k.value) && React(tables, k, h, room) == FollowReturn(tables, k.value, h)
    ensures var e := FollowReturn(tables, k.value, h).event.value; e.key == h.key && e.location == Ret && !e.flags.start
  {
  }

  /** What the reader makes of a sample's last return. */
  lemma RootRecorded(d: Deployment, k: TraceState, t: Thread, open: seq<Inside>, g: Goroutine, h: Hit)
    requires Consistent(d) && Linked(d, Some(k), t, g) && Mirrored(d, Some(k), t, open, g) && g.events != []
    requires h.Leave? && WellNested(d, t, h) && !Overflows(d.tables, k) && FollowReturn(d.tables, k, h).event.value.flags.end
    ensures open != [] && open[|open| - 1].ip == k.rootIp && Closed(d.config, [Returned(open[|open| - 1], h)])
    ensures var es := Taken(d.config, g, FollowReturn(d.tables, k, h).event.value).events;
            Replayed(es).records == Owed(d.config, [Returned(open[|open| - 1], h)], SampleWeight(k.denominator))
  {
    hide Replayed, Owed, OwedFor, Replays, Taken, ReturnsFromRoot, Closed, Count;
    RetainsReturn(d, k, t, open, g, h);
    ReturnKeeps(d, k, t, h);
    var n := |open| - 1;
    assert |Sample(t)| == 1;
    OwedSnoc(d.config, [], Returned(open[n], h), 0);
    assert Closed(d.config, []) by { NothingClosed(d.config); }
    assert [] + [Returned(open[n], h)] == [Returned(open[n], h)];
  }

  lemma NothingClosed(config: Config)
    ensures Closed(config, [])
  {
  }

  /** What is replayed is what the reader retained and the return. */
  lemma RetainedAndReturn(m: Manager, ev: TraceEvent)
    requires Silenced(m.pids, m.suppressed) && AllTidy(m) && Samples.Aggregates(m, ev) && ev.location == Ret && !ev.flags.start
    ensures Of(m, ev.key).events != [] && ev.ip in m.config.probes
    ensures Of(Add(m, ev).manager, ev.key) == Taken(m.config, Of(m, ev.key), ev)
  {
    hide Add, Silenced, AllTidy, Taken, Ends;
    AddOf(m, ev, ev.key);
  }

  /** What an aggregated sample adds to the records. */
  lemma SampleAdds(d: Deployment, sent: seq<TraceEvent>, ev: TraceEvent)
    requires Samples.Aggregates(HandledAll(NewManager(d.config), sent), ev) && ev.location == Ret && !ev.flags.start
    ensures var m, after := HandledAll(NewManager(d.config), sent), HandledAll(NewManager(d.config), sent + [ev]);
            && Of(m, ev.key).events != [] && ev.ip in d.config.probes
            && Samples.RecordsOf(after, ev.key.pid)
               == Samples.RecordsOf(m, ev.key.pid) + Replayed(Taken(d.config, Of(m, ev.key), ev).events).records
  {
    hide HandledAll, Handled, Silenced, AllTidy, Taken, Add, Replayed, Samples.Aggregates;
    var m := HandledAll(NewManager(d.config), sent);
    RunTidy(d.config, sent);
    MemoryAccountingIsExact(d.config, sent);
    SentSnoc(d, sent, ev);
    RetainedAndReturn(m, ev);
    Samples.RecordsOnlyFromSamples(m, ev, ev.key.pid);
  }

  /** What a sample is for. In every well nested run, however the goroutines interleave, if nothing was
   *  given up: when a followed goroutine returns from its sample's root call, the process gains
   *  exactly one record for that call and one for every call the goroutine really made inside, at any
   *  depth, each when it returned, with the time from its own last entry to its own return, its own
   *  results and the weight of the sample. */
  lemma SampleIsRecorded(d: Deployment, hits: seq<Hit>, h: Hit)
    requires Consistent(d) && WellRun(d, hits + [h]) && d.config.aggregate
    requires var e := Reacts(d.tables, Ran(d, hits).states, h).event; e.Some? && e.value.flags.end
    requires Spared(Reader(d, Ran(d, hits + [h])))
    ensures var s, open := Ran(d, hits), TreeOf(d, hits, h.key);
            var pid := h.key.pid;
            && h.Leave? && h.key in s.states && open != []
            && open[|open| - 1].ip == s.states[h.key].rootIp
            && var root := Returned(open[|open| - 1], h);
               var rate := s.states[h.key].denominator;
               var owed := Owed(d.config, [root], if rate > 1 then rate else 1);
               && Closed(d.config, [root]) && |owed| == CallCount([root])
               && Samples.RecordsOf(Reader(d, Ran(d, hits + [h])), pid) == Samples.RecordsOf(Reader(d, s), pid) + owed
  {
    hide Ran, HandledAll, Consistent, WellNested, WellRun, Stored, Advanced, React, Taken, Replayed, Owed, Closed, Samples.RecordsOf,
         CallCount, Samples.Aggregates, Linked, Mirrored, Overflows, FollowReturn, Spared;
    LastStep(d, hits, h);
    var s := Ran(d, hits);
    var m, ev := Reader(d, s), Reacts(d.tables, s.states, h).event.value;
    EndsInReturn(d.tables, Find(s.states, h.key), h, |s.states| < MAX_TRACED);
    RunLinked(d, hits, h.key);
    RunMirrored(d, hits, h.key);
    EndedSamplesAreAggregated(d, hits, h);
    SampleAdds(d, s.sent, ev);
    var open := TreeOf(d, hits, h.key);
    RootRecorded(d, s.states[h.key], ThreadOf(s, h.key), open, Of(m, h.key), h);
    OneEach(d.config, [Returned(open[|open| - 1], h)], SampleWeight(s.states[h.key].denominator));
  }
}
