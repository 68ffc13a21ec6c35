/** What the probes send and what the reader keeps of it. */
module TraceEvents {

  const UINT64: nat := 0x1_0000_0000_0000_0000

  /** A goroutine of one process. */
  datatype Key = Key(pid: int, goid: int)

  datatype Location = Entry | Ret | GoroutineExit

  /** The three bits of `trace_flags`. */
  datatype Flags = Flags(start: bool, end: bool, abort: bool)

  const NO_FLAGS := Flags(false, false, false)

  /** `text` stands for what the argument leaves of the event render to when it is handled. */
  datatype TraceEvent = TraceEvent(
    key: Key,
    location: Location,
    ip: int,
    bp: int,
    callerBp: int,
    timeNs: int,
    denominator: nat,
    flags: Flags,
    text: string)

  /** What is known of an instrumented address: the entry address of its function, and its name. */
  datatype Probe = Probe(entry: int, funcname: string)

  /** A retained event with the probe it resolved to and its rendered arguments. */
  datatype Retained = Retained(event: TraceEvent, probe: Probe, text: string)

  /** One call of `recordAgg`. */
  datatype CallRecord = CallRecord(funcname: string, elapsed: int, retval: string, weight: nat)

  /** `Duration(end - start)`: the 64-bit difference, read as a signed number. */
  function Elapsed(start: int, end: int): int
  {
    var d := (end - start) % UINT64;
    if d < UINT64 / 2 then d else d - UINT64
  }

  /** The time from one clock reading to another: their difference, as far as 64 bits can tell
   *  readings apart that lie 292 years or more from each other. */
  function Between(start: int, end: int): int
  {
    if -(UINT64 / 2) <= end - start < UINT64 / 2 then end - start
    else (end - start + UINT64 / 2) % UINT64 - UINT64 / 2
  }

  lemma ElapsedIsBetween(start: int, end: int)
    ensures Elapsed(start, end) == Between(start, end)
    ensures 0 <= start <= end && end - start < UINT64 / 2 ==> Elapsed(start, end) == end - start
  {
    var d, half := end - start, UINT64 / 2;
    assert d % UINT64 < half ==> (d + half) % UINT64 == d % UINT64 + half by { Shifted(d, half); }
    assert d % UINT64 >= half ==> (d + half) % UINT64 == d % UINT64 - half by { Shifted(d, half); }
  }

  lemma Shifted(d: int, k: nat)
    requires k < UINT64
    ensures (d + k) % UINT64 == if d % UINT64 + k < UINT64 then d % UINT64 + k else d % UINT64 + k - UINT64
  {
  }

  function SampleWeight(denominator: nat): nat
  {
    if denominator == 0 then 1 else denominator
  }

  /** The entry repeated after a stack was moved: same place, but not called from the last frame. */
  predicate IsDuplicate(last: TraceEvent, ev: TraceEvent)
  {
    last.location == ev.location && last.ip == ev.ip && last.bp != ev.callerBp
  }

  function Minus(a: nat, b: nat): nat
  {
    if b >= a then 0 else a - b
  }
}
