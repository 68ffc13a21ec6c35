/** A sample over budget is counted once, and its goroutine is ignored until the sample is over. */
module Suppression {
  import opened TraceEvents
  import opened ManagerState
  import opened Accounting
  import opened Goroutines

  /** The event finds the budget used up and costs its goroutine what is held of it. */
  ghost predicate Refused(m: Manager, ev: TraceEvent)
  {
    && !ev.location.GoroutineExit? && !ev.flags.abort
    && (ev.flags.start || ev.key !in m.suppressed)
    && ResetStale(m, ev).pending >= m.config.maxPending
  }

  /** An event by which a goroutine's sample is over: its last, its exit, an abort, or a new start. */
  predicate Over(ev: TraceEvent)
  {
    ev.location.GoroutineExit? || ev.flags.abort || ev.flags.end || ev.flags.start
  }

  lemma ResetQuiet(m: Manager, ev: TraceEvent)
    ensures var r := ResetStale(m, ev);
            && r.suppressed == m.suppressed && r.droppedOverBudget == m.droppedOverBudget
            && r.evicted == m.evicted && (!ev.flags.start ==> r == m)
  {
  }

  lemma RetainQuiet(m: Manager, ev: TraceEvent)
    ensures var r := Retain(m, ev).manager;
            && r.suppressed <= m.suppressed && r.droppedOverBudget == m.droppedOverBudget
            && (r.suppressed == m.suppressed || r.evicted > m.evicted)
            && r.evicted >= m.evicted
            && (Retain(m, ev).kept ==> ev.key.pid in r.pids)
  {
    hide Append, Replace;
    TouchQuiet(m, ev.key.pid);
  }

  lemma TouchQuiet(m: Manager, pid: int)
    ensures var t := Touch(m, pid);
            && t.suppressed <= m.suppressed && t.droppedOverBudget == m.droppedOverBudget
            && (t.suppressed == m.suppressed || t.evicted > m.evicted)
            && t.evicted >= m.evicted && (pid in m.pids ==> t.suppressed == m.suppressed && t.evicted == m.evicted)
  {
  }

  lemma DropQuiet(m: Manager, key: Key)
    ensures var r := DropStack(m, key);
            r.suppressed == m.suppressed && r.droppedOverBudget == m.droppedOverBudget && r.evicted == m.evicted
  {
  }

  lemma CloseQuiet(m: Manager, ev: TraceEvent)
    requires ev.key.pid in m.pids
    ensures var c := Conclude(m, ev);
            c.suppressed == m.suppressed && c.droppedOverBudget == m.droppedOverBudget && c.evicted == m.evicted
  {
    hide Replayed;
  }

  /** One event. Its own goroutine is ignored afterwards exactly if it already was or is refused now,
   *  and the event does not end its sample. Only a refusal counts as over budget, and once. Another
   *  goroutine is never ignored on its account; it stops being only when its process is evicted or
   *  10000 goroutines are ignored and one more is to be. */
  lemma SuppressionMoves(m: Manager, ev: TraceEvent, key: Key)
    requires m.config.adaptive
    ensures var n := Handled(m, ev);
            && (ev.key in n.suppressed <==>
                  && !ev.location.GoroutineExit? && !ev.flags.abort && !ev.flags.end
                  && (Refused(m, ev) || (ev.key in m.suppressed && !ev.flags.start)))
            && n.droppedOverBudget == m.droppedOverBudget + (if Refused(m, ev) then 1 else 0)
            && (key != ev.key && key in n.suppressed ==> key in m.suppressed)
            && (key != ev.key && key in m.suppressed && key !in n.suppressed ==>
                  n.evicted > m.evicted || (Refused(m, ev) && |m.suppressed| >= 10000 && !ev.flags.end))
  {
    hide DropStack, Retain, Conclude, Closes, Touch, ResetStale;
    var u := m.(suppressed := m.suppressed - {ev.key});
    DropQuiet(u, ev.key);
    ResetQuiet(m, ev);
    var r := ResetStale(m, ev);
    var v := r.(suppressed := r.suppressed - {ev.key});
    DropQuiet(v, ev.key);
    RetainQuiet(v, ev);
    var a := Add(m, ev);
    if a.kept {
      TouchQuiet(a.manager, ev.key.pid);
      var c := Touch(a.manager, ev.key.pid);
      CloseQuiet(c, ev);
      DropQuiet(Conclude(c, ev), ev.key);
    }
    SmallerSet(m.suppressed, ev.key);
  }

  lemma SmallerSet(s: set<Key>, key: Key)
    ensures |s - {key}| <= |s|
  {
    if key in s { assert s == (s - {key}) + {key}; }
  }

  /** Until its sample is over an ignored goroutine's events change nothing at all. */
  lemma IgnoredWhole(m: Manager, ev: TraceEvent)
    requires m.config.adaptive && ev.key in m.suppressed && !Over(ev)
    ensures Handled(m, ev) == m
  {
  }

  /** So a sample over budget is counted once: whatever more of it comes, up to and including its end,
   *  leaves every counter as it is, and then the goroutine is heard again. */
  lemma {:induction false} CountedOnce(m: Manager, rest: seq<TraceEvent>, last: TraceEvent, key: Key)
    requires m.config.adaptive && key in m.suppressed
    requires forall e <- rest :: e.key == key && !Over(e)
    requires last.key == key && last.flags.end && !last.flags.start && !last.flags.abort && !last.location.GoroutineExit?
    ensures HandledAll(m, rest) == m
    ensures HandledAll(m, rest + [last]) == m.(suppressed := m.suppressed - {key})
  {
    hide Handled;
    if rest != [] {
      var before, ev := rest[..|rest| - 1], rest[|rest| - 1];
      assert ev in rest;
      CountedOnce(m, before, last, key);
      IgnoredWhole(m, ev);
    }
    assert (rest + [last])[..|rest|] == rest;
    EndHeard(m, last);
  }

  lemma EndHeard(m: Manager, ev: TraceEvent)
    requires m.config.adaptive && ev.key in m.suppressed && ev.flags.end && !ev.flags.start && !ev.flags.abort && !ev.location.GoroutineExit?
    ensures Handled(m, ev) == m.(suppressed := m.suppressed - {ev.key})
  {
  }

  // ---- what is dropped ----

  /** A goroutine's sample is over for the reader although calls are open, or it was marked. */
  predicate Broken(config: Config, g: Goroutine)
  {
    config.aggregate && (g.invalid || g.stack != [])
  }

  /** What a start finds left over of a goroutine is dropped. */
  predicate LeftOver(m: Manager, ev: TraceEvent)
  {
    m.config.adaptive && ev.flags.start && Of(m, ev.key).events != []
  }

  lemma RetainDrops(m: Manager, ev: TraceEvent)
    ensures var r := Retain(m, ev).manager; r.droppedAborted == m.droppedAborted && r.droppedIncomplete == m.droppedIncomplete
  {
    hide Append, Replace;
  }

  lemma AddDrops(m: Manager, ev: TraceEvent)
    ensures var r := Add(m, ev).manager;
            && r.droppedAborted == m.droppedAborted
            && r.droppedIncomplete == m.droppedIncomplete + (if LeftOver(m, ev) then 1 else 0)
  {
    hide Retain, Touch;
    if m.config.adaptive {
      var r := ResetStale(m, ev);
      RetainDrops(r.(suppressed := r.suppressed - {ev.key}), ev);
    } else {
      RetainDrops(m, ev);
    }
  }

  lemma ConcludeDrops(m: Manager, ev: TraceEvent)
    requires ev.key.pid in m.pids
    ensures var c := Conclude(m, ev);
            && c.droppedAborted == m.droppedAborted
            && c.droppedIncomplete == m.droppedIncomplete + (if Broken(m.config, Of(m, ev.key)) then 1 else 0)
  {
    hide Replayed;
  }

  /** Every drop is counted once, under its cause: an abort; or what a start finds left over, and a sample
   *  that closes with calls open or marked. */
  lemma DropsAreCounted(m: Manager, ev: TraceEvent)
    ensures var n, a := Handled(m, ev), Add(m, ev);
            var aborts := m.config.adaptive && ev.flags.abort && !ev.location.GoroutineExit?;
            var added := !aborts && !ev.location.GoroutineExit?;
            var closes := added && a.kept && ev.key.pid in a.manager.pids && Ends(m.config, Of(a.manager, ev.key), ev);
            && n.droppedAborted == m.droppedAborted + (if aborts then 1 else 0)
            && (a.kept ==> ev.key.pid in a.manager.pids)
            && n.droppedIncomplete == m.droppedIncomplete
                 + (if added && LeftOver(m, ev) then 1 else 0) + (if closes && Broken(m.config, Of(a.manager, ev.key)) then 1 else 0)
  {
    hide DropStack, Add, Conclude, LeftOver, Broken;
    DropsNothing(m.(suppressed := m.suppressed - {ev.key}), ev.key);
    AddDrops(m, ev);
    KeptIsHere(m, ev);
    var a := Add(m, ev);
    if a.kept {
      TouchDrops(a.manager, ev.key.pid);
      TouchAgainOf(a.manager, ev.key.pid, ev.key);
      var c := Touch(a.manager, ev.key.pid);
      ConcludeDrops(c, ev);
      DropsNothing(Conclude(c, ev), ev.key);
    }
  }

  lemma KeptIsHere(m: Manager, ev: TraceEvent)
    ensures Add(m, ev).kept ==> ev.key.pid in Add(m, ev).manager.pids
  {
    hide Append, Replace;
  }

  lemma TouchDrops(m: Manager, pid: int)
    ensures var t := Touch(m, pid); t.droppedAborted == m.droppedAborted && t.droppedIncomplete == m.droppedIncomplete
  {
  }

  lemma DropsNothing(m: Manager, key: Key)
    ensures var r := DropStack(m, key); r.droppedAborted == m.droppedAborted && r.droppedIncomplete == m.droppedIncomplete
  {
  }

  /** In adaptive mode a sample is over for the reader with the event that says so, whatever was lost
   *  before, and with no other: then nothing of it is held any more, else all that was kept stays. */
  lemma EndsWithItsEnd(m: Manager, ev: TraceEvent)
    requires m.config.adaptive && m.config.aggregate && Silenced(m.pids, m.suppressed) && AllTidy(m)
    requires ev.ip in m.config.probes && !ev.location.GoroutineExit? && !ev.flags.abort
    ensures ev.flags.end ==> Of(Handled(m, ev), ev.key) == NOTHING
    ensures !ev.flags.end && Add(m, ev).kept ==> Of(Handled(m, ev), ev.key) == Of(Add(m, ev).manager, ev.key) != NOTHING
  {
    hide DropStack, Add, Conclude, Silenced;
    HandleOf(m, ev, ev.key);
    AddOf(m, ev, ev.key);
    assert Tidy(Of(m, ev.key));
    var a := Add(m, ev);
    if a.kept { TouchAgainOf(a.manager, ev.key.pid, ev.key); }
  }

  /** And it begins with its start: whatever was still held of the goroutine, afterwards just the call
   *  that starts is, open. */
  lemma StartsAnew(m: Manager, ev: TraceEvent)
    requires m.config.adaptive && Silenced(m.pids, m.suppressed) && AllTidy(m)
    requires ev.flags.start && !ev.flags.end && !ev.flags.abort && ev.location == Entry && ev.ip in m.config.probes
    requires Add(m, ev).kept
    ensures Of(Handled(m, ev), ev.key) == Goroutine([Retained(ev, m.config.probes[ev.ip], ev.text)], [ev.ip], false)
  {
    hide DropStack, Add, Conclude, Silenced;
    HandleOf(m, ev, ev.key);
    AddOf(m, ev, ev.key);
    assert Tidy(Of(m, ev.key));
    TouchAgainOf(Add(m, ev).manager, ev.key.pid, ev.key);
    assert NOTHING.stack + [ev.ip] == [ev.ip];
  }
}
