/** The adaptive sampler: a feedback controller on heap usage and queue loss. */
module Sampler {

  const MAX_DENOMINATOR := 0x10_0000
  const LOSS_NOISE: real := 0.02
  const LOSS_SAFETY: real := 1.5
  const RECOVER_WINDOWS := 5
  const UNLOCK_WINDOWS := 15

  const UINT64: int := 0x1_0000_0000_0000_0000

  /** One sampling window as the sampler sees it. `converted` is what the platform makes of
   *  converting the raised denominator from floating point to 32 bits: `ConvertsTo` says what Go
   *  promises of it, and for the quotients a loss rate near 1 produces it promises nothing. */
  datatype Window = Window(heapAlloc: nat, lossRate: real, converted: nat)

  datatype State = State(memoryLimit: nat, den: nat, unsafeDen: nat, stable: nat)

  /** `percent`, with its two divisions. */
  function Percent(value: nat, p: nat): nat
  {
    value / 100 * p + value % 100 * p / 100
  }

  /** It is the floor of value * p / 100, and no intermediate result leaves 64 bits. */
  lemma PercentIsFloor(value: nat, p: nat)
    requires value < UINT64 && p <= 100
    ensures Percent(value, p) == value * p / 100
    ensures value / 100 * p < UINT64 && value % 100 * p < UINT64 && Percent(value, p) <= value
  {
    var q, r := value / 100, value % 100;
    assert value == 100 * q + r;
    assert value * p == (q * p) * 100 + r * p by {
      assert value * p == (100 * q + r) * p == 100 * (q * p) + r * p;
    }
    DivideMultiple(q * p, r * p);
    MulMonotone(q, p, 100);
    MulMonotone(r, p, 100);
  }

  lemma DivideMultiple(a: nat, b: nat)
    ensures (a * 100 + b) / 100 == a + b / 100
  {
  }

  lemma {:induction false} MulMonotone(a: nat, p: nat, q: nat)
    requires p <= q
    ensures a * p <= a * q
  {
    assert a * q == a * p + a * (q - p);
  }

  function HeapTarget(s: State, heapAlloc: nat): nat
  {
    if heapAlloc >= s.memoryLimit then MAX_DENOMINATOR
    else if heapAlloc >= Percent(s.memoryLimit, 85) then 64
    else if heapAlloc >= Percent(s.memoryLimit, 70) then 8
    else if heapAlloc > Percent(s.memoryLimit, 45) then s.den
    else 1
  }

  function LossRaised(current: nat, converted: nat): nat
  {
    var raised := if converted <= current then current + 1 else converted;
    if raised > MAX_DENOMINATOR then MAX_DENOMINATOR else raised
  }

  /** The part of a window that watches for loss: counting stable windows, moving the floor. */
  function AfterLoss(s: State, w: Window): State
  {
    if w.lossRate > LOSS_NOISE then
      s.(stable := 0, unsafeDen := if s.den > s.unsafeDen then s.den else s.unsafeDen)
    else if s.stable + 1 >= UNLOCK_WINDOWS then
      s.(stable := 0, unsafeDen := s.unsafeDen / 2)
    else
      s.(stable := s.stable + 1)
  }

  function Target(s: State, w: Window): nat
  {
    var heap := HeapTarget(s, w.heapAlloc);
    if w.lossRate > LOSS_NOISE && LossRaised(s.den, w.converted) > heap then LossRaised(s.den, w.converted) else heap
  }

  /** One window. */
  function Next(s: State, w: Window): State
  {
    var target := Target(s, w);
    var s' := AfterLoss(s, w);
    if target > s.den then s'.(den := target, stable := 0)
    else if target < s.den && s'.stable >= RECOVER_WINDOWS && s.den / 2 > s'.unsafeDen then
      s'.(den := if s.den / 2 < target then target else s.den / 2, stable := 0)
    else s'
  }

  class AdaptiveSampler {
    const memoryLimit: nat
    var den: nat
    var unsafeDen: nat
    var stableWindows: nat

    constructor (memoryLimit: nat)
      ensures View() == State(memoryLimit, 1, 0, 0)
    {
      this.memoryLimit := memoryLimit;
      den, unsafeDen, stableWindows := 1, 0, 0;
    }

    function View(): State
      reads this
    {
      State(memoryLimit, den, unsafeDen, stableWindows)
    }

    method Adjust(heapAlloc: nat, lossRate: real, converted: nat) returns (denominator: nat, changed: bool)
      modifies this`den, this`unsafeDen, this`stableWindows
      ensures View() == Next(old(View()), Window(heapAlloc, lossRate, converted))
      ensures denominator == den && changed == (den != old(den))
    {
      var previous := den;
      var target := HeapTarget(View(), heapAlloc);
      if lossRate > LOSS_NOISE {
        stableWindows := 0;
        if den > unsafeDen {
          unsafeDen := den;
        }
        var raised := LossRaised(den, converted);
        if raised > target {
          target := raised;
        }
      } else {
        stableWindows := stableWindows + 1;
        if stableWindows >= UNLOCK_WINDOWS {
          unsafeDen := unsafeDen / 2;
          stableWindows := 0;
        }
      }
      if target > den {
        den := target;
        stableWindows := 0;
      } else if target < den {
        if stableWindows >= RECOVER_WINDOWS && den / 2 > unsafeDen {
          den := den / 2;
          if den < target {
            den := target;
          }
          stableWindows := 0;
        }
      }
      return den, den != previous;
    }
  }

  // ---- safety ----

  ghost predicate Safe(s: State)
  {
    && 1 <= s.den <= MAX_DENOMINATOR
    && s.unsafeDen <= s.den
    && (s.den > s.unsafeDen || s.den == MAX_DENOMINATOR)
    && s.stable < UNLOCK_WINDOWS
  }

  /** A run from the sampler's first state. */
  ghost predicate Run(windows: seq<Window>, states: seq<State>)
  {
    && |states| == |windows| + 1
    && states[0].den == 1 && states[0].unsafeDen == 0 && states[0].stable == 0
    && forall i | 0 <= i < |windows| :: states[i + 1] == Next(states[i], windows[i])
  }

  lemma NextSafe(s: State, w: Window)
    requires Safe(s)
    ensures Safe(Next(s, w)) && Next(s, w).memoryLimit == s.memoryLimit
  {
  }

  lemma {:induction false} AlwaysSafe(windows: seq<Window>, states: seq<State>, n: nat)
    requires Run(windows, states) && n <= |windows|
    ensures Safe(states[n])
  {
    if n > 0 {
      AlwaysSafe(windows, states, n - 1);
      NextSafe(states[n - 1], windows[n - 1]);
    }
  }

  ghost predicate Decreases(states: seq<State>, i: nat)
    requires i + 1 < |states|
  {
    states[i + 1].den < states[i].den
  }

  lemma {:induction false} StableSince(windows: seq<Window>, states: seq<State>, i: nat, k: nat)
    requires Run(windows, states) && i < k <= |windows| && Decreases(states, i)
    ensures states[k].stable <= k - i - 1
  {
    if k > i + 1 {
      StableSince(windows, states, i, k - 1);
      assert states[k] == Next(states[k - 1], windows[k - 1]);
    } else {
      assert states[k] == Next(states[i], windows[i]);
    }
  }

  lemma {:induction false} StableMeansQuiet(windows: seq<Window>, states: seq<State>, k: nat)
    requires Run(windows, states) && k <= |windows|
    ensures states[k].stable <= k
    ensures forall j | k - states[k].stable <= j < k :: windows[j].lossRate <= LOSS_NOISE
  {
    if k > 0 {
      StableMeansQuiet(windows, states, k - 1);
      assert states[k] == Next(states[k - 1], windows[k - 1]);
    }
  }

  /** In every run, whatever the windows bring: the denominator stays between 1 and 2^20 and above
   *  the unsafe floor unless capped; a decrease lands above the floor, comes no sooner than five
   *  windows after the last one, and follows five windows without loss. */
  lemma SamplerIsSafe(windows: seq<Window>, states: seq<State>)
    requires Run(windows, states)
    ensures forall k | 0 <= k < |states| :: Safe(states[k])
    ensures forall j | 0 <= j < |windows| && Decreases(states, j) ::
              && states[j + 1].den > states[j + 1].unsafeDen
              && (forall i | 0 <= i < j && Decreases(states, i) :: j - i >= RECOVER_WINDOWS)
              && j + 1 >= RECOVER_WINDOWS
              && forall m | j + 1 - RECOVER_WINDOWS <= m <= j :: windows[m].lossRate <= LOSS_NOISE
  {
    forall k | 0 <= k < |states|
      ensures Safe(states[k])
    {
      AlwaysSafe(windows, states, k);
    }
    forall j | 0 <= j < |windows| && Decreases(states, j)
      ensures states[j + 1].den > states[j + 1].unsafeDen
      ensures forall i | 0 <= i < j && Decreases(states, i) :: j - i >= RECOVER_WINDOWS
      ensures j + 1 >= RECOVER_WINDOWS
      ensures forall m | j + 1 - RECOVER_WINDOWS <= m <= j :: windows[m].lossRate <= LOSS_NOISE
    {
      assert states[j + 1] == Next(states[j], windows[j]) && Safe(states[j]);
      StableMeansQuiet(windows, states, j);
      forall i | 0 <= i < j && Decreases(states, i)
        ensures j - i >= RECOVER_WINDOWS
      {
        StableSince(windows, states, i, j);
      }
    }
  }

  // ---- the raised denominator ----

  const UINT32: int := 0x1_0000_0000
  const EPSILON: real := 0.000000001

  function Ceiling(x: real): (n: int)
    ensures n as real - 1.0 < x <= n as real
  {
    -(-x).Floor
  }

  /** What `lossRaisedDenominator` rounds up: the break-even denominator with the safety factor. */
  function Needed(current: nat, lossRate: real): real
    requires lossRate < 1.0
  {
    current as real * LOSS_SAFETY / (1.0 - lossRate) - EPSILON
  }

  /** Go converts a float to 32 bits by value when it fits; otherwise anything may come out. */
  predicate ConvertsTo(current: nat, lossRate: real, converted: nat)
  {
    lossRate < 1.0 && Ceiling(Needed(current, lossRate)) < UINT32 ==> converted == Ceiling(Needed(current, lossRate))
  }

  /** At this denominator the share admitted is at most 1/1.5 of what the consumer kept up with. */
  predicate HasHeadroom(den: nat, current: nat, lossRate: real)
    requires lossRate < 1.0
  {
    den as real >= Needed(current, lossRate)
  }

  lemma ScaleReal(a: real, b: real, k: real)
    requires k > 0.0
    ensures a >= b <==> a * k >= b * k
  {
  }

  /** Headroom in terms of the loss: the events admitted at `den` for each one the consumer kept up
   *  with at `current` are no more than 1/1.5, to within the epsilon. */
  lemma HeadroomMeans(den: nat, current: nat, lossRate: real)
    requires lossRate < 1.0
    ensures HasHeadroom(den, current, lossRate)
       <==> den as real * (1.0 - lossRate) >= current as real * LOSS_SAFETY - EPSILON * (1.0 - lossRate)
  {
    var kept, need := 1.0 - lossRate, current as real * LOSS_SAFETY;
    var q := need / kept;
    DivideBack(need, kept);
    ScaleReal(den as real, q - EPSILON, kept);
    Distribute(q, EPSILON, kept);
  }

  lemma DivideBack(a: real, k: real)
    requires k > 0.0
    ensures a / k * k == a
  {
  }

  lemma Distribute(a: real, b: real, k: real)
    ensures (a - b) * k == a * k - b * k
  {
  }

  /** Whatever the loss, the quotient lies above the current denominator. */
  lemma NeededAbove(current: nat, lossRate: real)
    requires 1 <= current && 0.0 <= lossRate < 1.0
    ensures Needed(current, lossRate) > current as real
  {
    var kept, need := 1.0 - lossRate, current as real * LOSS_SAFETY;
    ScaleReal(need / kept, need, kept);
    DivideBack(need, kept);
    Shrink(need, kept);
  }

  lemma Shrink(a: real, k: real)
    requires a >= 0.0 && 0.0 < k <= 1.0
    ensures a * k <= a
  {
  }

  /** Where the conversion is defined, the raised denominator is the least one above the current
   *  denominator that has the headroom, or the cap if that one lies beyond it. */
  lemma RaisedIsLeast(current: nat, lossRate: real, converted: nat)
    requires 1 <= current < MAX_DENOMINATOR && 0.0 <= lossRate < 1.0
    requires ConvertsTo(current, lossRate, converted) && Ceiling(Needed(current, lossRate)) < UINT32
    ensures var raised := LossRaised(current, converted);
            && current < raised <= MAX_DENOMINATOR
            && (raised == MAX_DENOMINATOR || HasHeadroom(raised, current, lossRate))
            && forall m: nat | current < m < raised :: !HasHeadroom(m, current, lossRate)
  {
    hide Needed;
    NeededAbove(current, lossRate);
    var needed := Needed(current, lossRate);
    var raised := LossRaised(current, converted);
    assert converted == Ceiling(needed) > current;
    assert raised == MAX_DENOMINATOR || raised == converted;
    forall m: nat | current < m < LossRaised(current, converted)
      ensures !HasHeadroom(m, current, lossRate)
    {
      assert m as real <= Ceiling(needed) as real - 1.0;
    }
  }

  // ---- pressure ----

  /** What the heap asks of the denominator, whatever it is now. */
  predicate HeapServed(limit: nat, heapAlloc: nat, den: nat)
  {
    && (heapAlloc >= limit ==> den >= 0x10_0000)
    && (heapAlloc >= limit * 85 / 100 ==> den >= 64)
    && (heapAlloc >= limit * 70 / 100 ==> den >= 8)
  }

  /** What a window's loss asks of it: to move on from the current one and, where the conversion is
   *  defined, to admit at most 1/1.5 of what the consumer kept up with; or to be the cap. */
  predicate LossServed(current: nat, lossRate: real, den: nat)
  {
    lossRate > 0.02 ==>
      || den >= 0x10_0000
      || (den > current && (Convertible(current, lossRate) ==> KeepsUp(den, current, lossRate)))
  }

  /** The consumer kept up with `1 - lossRate` of what `current` admits; `den` admits at most 1/1.5 of
   *  that, to within the epsilon. */
  predicate KeepsUp(den: nat, current: nat, lossRate: real)
  {
    den as real * (1.0 - lossRate) >= current as real * 1.5 - EPSILON * (1.0 - lossRate)
  }

  predicate Convertible(current: nat, lossRate: real)
  {
    lossRate < 1.0 && Ceiling(Needed(current, lossRate)) < UINT32
  }

  /** Between 45% and 70% of the limit the heap asks for no change. */
  predicate Undecided(limit: nat, heapAlloc: nat)
  {
    limit * 45 / 100 < heapAlloc < limit * 70 / 100
  }

  /** The next denominator serves the window's heap and its loss. It is raised only for their sake,
   *  and then to the least denominator that serves both, where the conversion is defined. */
  lemma NextServes(s: State, w: Window)
    requires Safe(s) && s.memoryLimit < UINT64 && 0.0 <= w.lossRate <= 1.0 && ConvertsTo(s.den, w.lossRate, w.converted)
    ensures var den := Next(s, w).den;
            && HeapServed(s.memoryLimit, w.heapAlloc, den) && LossServed(s.den, w.lossRate, den)
            && (w.lossRate > 0.02 ==> den >= s.den)
            && (w.lossRate > 0.02 ==> Convertible(s.den, w.lossRate)) ==>
                 forall m | s.den <= m < den :: !(HeapServed(s.memoryLimit, w.heapAlloc, m) && LossServed(s.den, w.lossRate, m))
  {
    hide Ceiling, Needed, LossServed, HeapServed, HeapTarget, LossRaised, Convertible, Percent;
    HeapIsLeast(s, w.heapAlloc);
    HeapGrows(s.memoryLimit, w.heapAlloc);
    LossGrows(s.den, w.lossRate);
    if w.lossRate > 0.02 {
      RaisedServes(s.den, w.lossRate, w.converted);
    }
  }

  /** Without loss and in the undecided band nothing changes. Else it is lowered exactly without
   *  loss, after five to fourteen windows without loss, if half of it is above the floor and something
   *  lower serves the heap; then to its half, or to the least above that which serves the heap. */
  lemma NextFalls(s: State, w: Window)
    requires Safe(s) && s.memoryLimit < UINT64
    ensures var den := Next(s, w).den;
            && (w.lossRate <= 0.02 && Undecided(s.memoryLimit, w.heapAlloc) ==> den == s.den)
            && (den < s.den <==>
                  && w.lossRate <= 0.02 && 5 <= s.stable + 1 <= 14 && s.den / 2 > s.unsafeDen
                  && !Undecided(s.memoryLimit, w.heapAlloc) && HeapServed(s.memoryLimit, w.heapAlloc, s.den - 1))
            && (den < s.den ==> den >= s.den / 2 && (den > s.den / 2 ==> !HeapServed(s.memoryLimit, w.heapAlloc, den - 1)))
  {
    hide HeapServed, HeapTarget, LossRaised, Percent;
    HeapIsLeast(s, w.heapAlloc);
    HeapGrows(s.memoryLimit, w.heapAlloc);
    RaisedAbove(s.den, w.converted);
  }

  lemma RaisedAbove(current: nat, converted: nat)
    ensures LossRaised(current, converted) <= MAX_DENOMINATOR
    ensures current < MAX_DENOMINATOR ==> LossRaised(current, converted) > current
    ensures current == MAX_DENOMINATOR ==> LossRaised(current, converted) == MAX_DENOMINATOR
  {
  }

  /** The heap's target is the least denominator that serves it, outside the undecided band. */
  lemma HeapIsLeast(s: State, heapAlloc: nat)
    requires Safe(s) && s.memoryLimit < UINT64
    ensures var target := HeapTarget(s, heapAlloc);
            && 1 <= target <= MAX_DENOMINATOR
            && HeapServed(s.memoryLimit, heapAlloc, target)
            && (if Undecided(s.memoryLimit, heapAlloc) then target == s.den
                else forall m | 0 < m < target :: !HeapServed(s.memoryLimit, heapAlloc, m))
  {
    var limit := s.memoryLimit;
    PercentIsFloor(limit, 45);
    PercentIsFloor(limit, 70);
    PercentIsFloor(limit, 85);
    hide Percent;
    assert limit * 45 / 100 <= limit * 70 / 100 <= limit * 85 / 100 <= limit;
  }

  lemma HeapGrows(limit: nat, heapAlloc: nat)
    ensures forall m, n | m <= n && HeapServed(limit, heapAlloc, m) :: HeapServed(limit, heapAlloc, n)
  {
  }

  lemma LossGrows(current: nat, lossRate: real)
    requires 0.0 <= lossRate <= 1.0
    ensures forall m, n | m <= n && LossServed(current, lossRate, m) :: LossServed(current, lossRate, n)
  {
    hide Convertible, KeepsUp;
    forall m: nat, n: nat | m <= n && LossServed(current, lossRate, m)
      ensures LossServed(current, lossRate, n)
    {
      if KeepsUp(m, current, lossRate) { KeepsUpGrows(m, n, current, lossRate); }
    }
  }

  lemma KeepsUpGrows(m: nat, n: nat, current: nat, lossRate: real)
    requires 0.0 <= lossRate <= 1.0 && m <= n && KeepsUp(m, current, lossRate)
    ensures KeepsUp(n, current, lossRate)
  {
    MulGrows(m as real, n as real, 1.0 - lossRate);
  }

  lemma MulGrows(a: real, b: real, k: real)
    requires a <= b && k >= 0.0
    ensures a * k <= b * k
  {
  }

  /** The raised denominator is the least above the current one that serves the loss. */
  lemma RaisedServes(current: nat, lossRate: real, converted: nat)
    requires 1 <= current <= MAX_DENOMINATOR && 0.02 < lossRate <= 1.0 && ConvertsTo(current, lossRate, converted)
    ensures var raised := LossRaised(current, converted);
            && current <= raised <= MAX_DENOMINATOR && LossServed(current, lossRate, raised)
            && (current < MAX_DENOMINATOR ==> !LossServed(current, lossRate, current) && raised > current)
            && (Convertible(current, lossRate) ==> forall m: nat | current < m < raised :: !LossServed(current, lossRate, m))
  {
    hide Needed, Ceiling, KeepsUp, HasHeadroom, LossRaised;
    RaisedAbove(current, converted);
    if current < MAX_DENOMINATOR && Convertible(current, lossRate) {
      RaisedIsLeast(current, lossRate, converted);
      forall m: nat
        ensures KeepsUp(m, current, lossRate) <==> HasHeadroom(m, current, lossRate)
      {
        KeepsUpIsHeadroom(m, current, lossRate);
      }
    }
  }

  lemma KeepsUpIsHeadroom(den: nat, current: nat, lossRate: real)
    requires lossRate < 1.0
    ensures KeepsUp(den, current, lossRate) <==> HasHeadroom(den, current, lossRate)
  {
    hide HasHeadroom;
    HeadroomMeans(den, current, lossRate);
  }

  /** A denominator at which events were lost is not returned to within fifteen windows: all that
   *  while the next ones lie above it, or at the cap. */
  lemma LossRemembered(windows: seq<Window>, states: seq<State>, i: nat, k: nat)
    requires Run(windows, states) && i < k <= |windows| && k <= i + 15 && windows[i].lossRate > 0.02
    ensures states[k].den > states[i].den || states[k].den == 0x10_0000
  {
    FloorHolds(windows, states, i, k);
    AlwaysSafe(windows, states, k);
  }

  lemma {:induction false} FloorHolds(windows: seq<Window>, states: seq<State>, i: nat, k: nat)
    requires Run(windows, states) && i < k <= |windows| && k <= i + UNLOCK_WINDOWS && windows[i].lossRate > LOSS_NOISE
    ensures states[k].unsafeDen >= states[i].den && states[k].stable < k - i
  {
    hide Target;
    AlwaysSafe(windows, states, k - 1);
    assert states[k] == Next(states[k - 1], windows[k - 1]);
    if k > i + 1 {
      FloorHolds(windows, states, i, k - 1);
    }
  }

  /** After fifteen windows without loss and without a change of the denominator the floor is half
   *  of what it was, and until then it is what it was. */
  lemma {:induction false} FloorHalves(s: State, windows: seq<Window>)
    requires s.stable + |windows| <= 15 && forall w <- windows :: w.lossRate <= 0.02
    requires forall i | 0 <= i <= |windows| :: After(s, windows[..i]).den == s.den
    ensures var n := s.stable + |windows|;
            After(s, windows) == if windows == [] || n < 15 then s.(stable := n) else s.(stable := 0, unsafeDen := s.unsafeDen / 2)
    decreases windows
  {
    hide Target;
    if windows != [] {
      var next := Next(s, windows[0]);
      assert windows[..1] == [windows[0]] && windows[..0] == [];
      assert After(s, windows[..1]) == After(next, windows[..1][1..]) == next;
      assert windows[0] in windows;
      forall i | 0 <= i <= |windows| - 1
        ensures After(next, windows[1..][..i]).den == s.den
      {
        assert windows[..i + 1][1..] == windows[1..][..i];
        assert After(s, windows[..i + 1]).den == s.den;
      }
      FloorHalves(next, windows[1..]);
    }
  }

  // ---- recovery ----

  /** A window without pressure: heap at or below 45% of the limit, loss at or below the noise. */
  predicate Calm(limit: nat, w: Window)
  {
    w.heapAlloc <= Percent(limit, 45) && w.lossRate <= LOSS_NOISE
  }

  const MIB := 0x10_0000

  lemma CalmTarget(s: State, w: Window)
    requires MIB <= s.memoryLimit < UINT64 && Calm(s.memoryLimit, w)
    ensures Target(s, w) == 1
  {
    PercentIsFloor(s.memoryLimit, 45);
    PercentIsFloor(s.memoryLimit, 70);
    PercentIsFloor(s.memoryLimit, 85);
  }

  /** Halvings until zero. */
  function Bits(n: nat): nat
  {
    if n == 0 then 0 else 1 + Bits(n / 2)
  }

  /** Halvings until one. */
  function Halvings(den: nat): nat
  {
    if den <= 1 then 0 else 1 + Halvings(den / 2)
  }

  /** Windows still needed, counted down by every calm window. */
  function Remaining(s: State): int
  {
    var credit :=
      if s.den / 2 <= s.unsafeDen then s.stable
      else if s.stable == UNLOCK_WINDOWS - 1 && s.unsafeDen == 0 then -1
      else if s.stable > 4 then 4 else s.stable;
    UNLOCK_WINDOWS * Bits(s.unsafeDen) + RECOVER_WINDOWS * Halvings(s.den) - credit
  }

  lemma CalmStep(s: State, w: Window)
    requires Safe(s) && MIB <= s.memoryLimit < UINT64 && Calm(s.memoryLimit, w)
    ensures s.den == 1 ==> Next(s, w).den == 1
    ensures s.den > 1 ==> Next(s, w).den == 1 || Remaining(Next(s, w)) < Remaining(s)
    ensures s.den > 1 ==> Remaining(s) > 0
  {
    hide Target, HeapTarget, Percent;
    CalmTarget(s, w);
    assert s.den > 1 ==> Halvings(s.den) == 1 + Halvings(s.den / 2);
    assert s.unsafeDen > 0 ==> Bits(s.unsafeDen) == 1 + Bits(s.unsafeDen / 2);
  }

  /** The windows that always suffice: 15 per halving of the unsafe floor, 5 per halving of the
   *  denominator, and one more when the floor's countdown runs out first. */
  function RecoveryBound(s: State): nat
  {
    UNLOCK_WINDOWS * Bits(s.unsafeDen) + RECOVER_WINDOWS * Halvings(s.den) + 1
  }

  lemma {:induction false} CountdownReachesOne(s: State, windows: seq<Window>)
    requires Safe(s) && MIB <= s.memoryLimit < UINT64
    requires forall w <- windows :: Calm(s.memoryLimit, w)
    requires s.den == 1 || |windows| >= Remaining(s)
    ensures After(s, windows).den == 1
    decreases windows
  {
    if windows != [] {
      assert windows[0] in windows;
      CalmStep(s, windows[0]);
      NextSafe(s, windows[0]);
      CountdownReachesOne(Next(s, windows[0]), windows[1..]);
    } else if s.den > 1 {
      CalmStep(s, Window(0, 0.0, 0));
    }
  }

  /** The sampler after some windows. */
  function After(s: State, windows: seq<Window>): State
    decreases |windows|
  {
    if windows == [] then s else After(Next(s, windows[0]), windows[1..])
  }

  /** From any reachable state, calm windows bring the denominator back to 1 within the bound. */
  lemma SamplerRecovers(past: seq<Window>, states: seq<State>, calm: seq<Window>)
    requires Run(past, states) && MIB <= states[0].memoryLimit < UINT64
    requires forall w <- calm :: Calm(states[0].memoryLimit, w)
    requires |calm| >= RecoveryBound(states[|past|])
    ensures After(states[|past|], calm).den == 1
  {
    AlwaysSafe(past, states, |past|);
    SameLimit(past, states, |past|);
    CountdownReachesOne(states[|past|], calm);
  }

  lemma {:induction false} SameLimit(windows: seq<Window>, states: seq<State>, n: nat)
    requires Run(windows, states) && n <= |windows|
    ensures states[n].memoryLimit == states[0].memoryLimit
  {
    if n > 0 {
      SameLimit(windows, states, n - 1);
      AlwaysSafe(windows, states, n - 1);
      NextSafe(states[n - 1], windows[n - 1]);
    }
  }

  /** Without the extra window: 15 per halving of the floor and 5 per halving of the denominator. */
  function WindowsForHalvings(s: State): nat
  {
    UNLOCK_WINDOWS * Bits(s.unsafeDen) + RECOVER_WINDOWS * Halvings(s.den)
  }

  /** With no floor left, less than five windows per halving never reach 1. */
  lemma {:induction false} TooFewWindows(s: State, windows: seq<Window>)
    requires Safe(s) && MIB <= s.memoryLimit < UINT64 && s.unsafeDen == 0 && s.den > 1 && s.stable < RECOVER_WINDOWS
    requires forall w <- windows :: Calm(s.memoryLimit, w)
    requires |windows| + s.stable < RECOVER_WINDOWS * Halvings(s.den)
    ensures After(s, windows).den > 1
    decreases windows
  {
    hide Target, HeapTarget, Percent;
    if windows != [] {
      assert windows[0] in windows;
      CalmTarget(s, windows[0]);
      NextSafe(s, windows[0]);
      assert Halvings(s.den) == 1 + Halvings(s.den / 2);
      var next := Next(s, windows[0]);
      if s.stable + 1 == RECOVER_WINDOWS {
        assert next.den == s.den / 2 && next.stable == 0;
        assert next.den == 1 ==> Halvings(next.den) == 0;
      }
      TooFewWindows(next, windows[1..]);
    }
  }

  /** That many calm windows suffice from every safe state but one family: 14 windows without loss
   *  counted, no floor and a denominator still above 1. There the countdown runs out first and
   *  starts again, so one window more is needed, which is why the bound has it. */
  lemma BoundIsTight(s: State, windows: seq<Window>)
    requires Safe(s) && MIB <= s.memoryLimit < UINT64
    requires forall w <- windows :: Calm(s.memoryLimit, w)
    requires |windows| == WindowsForHalvings(s)
    ensures After(s, windows).den == 1 <==> !(s.stable == UNLOCK_WINDOWS - 1 && s.unsafeDen == 0 && s.den > 1)
  {
    if s.stable == UNLOCK_WINDOWS - 1 && s.unsafeDen == 0 && s.den > 1 {
      assert Halvings(s.den) == 1 + Halvings(s.den / 2);
      assert windows[0] in windows;
      CalmTarget(s, windows[0]);
      NextSafe(s, windows[0]);
      TooFewWindows(Next(s, windows[0]), windows[1..]);
    } else {
      CountdownReachesOne(s, windows);
    }
  }

  /** Such a state is reachable: heap first at 70% and then at 50% of the limit for 14 windows. */
  lemma TightStateReached()
    ensures var high, mid := Window(70 * MIB, 0.0, 0), Window(50 * MIB, 0.0, 0);
            After(State(100 * MIB, 1, 0, 0), [high] + Repeat(mid, 14)) == State(100 * MIB, 8, 0, 14)
  {
    var high, mid := Window(70 * MIB, 0.0, 0), Window(50 * MIB, 0.0, 0);
    var limit := 100 * MIB;
    assert ([high] + Repeat(mid, 14))[1..] == Repeat(mid, 14);
    assert Next(State(limit, 1, 0, 0), high) == State(limit, 8, 0, 0);
    IdleCounts(limit, 8, 0, mid, 14);
  }

  function Repeat(w: Window, n: nat): (r: seq<Window>)
    ensures |r| == n
  {
    seq(n, _ => w)
  }

  lemma RepeatStep(w: Window, n: nat)
    ensures Repeat(w, n + 1)[0] == w && Repeat(w, n + 1)[1..] == Repeat(w, n)
  {
  }

  /** Low-loss windows that leave the denominator alone only count. */
  lemma {:induction false} IdleCounts(limit: nat, den: nat, stable: nat, w: Window, n: nat)
    requires w.lossRate <= LOSS_NOISE && stable + n < UNLOCK_WINDOWS
    requires HeapTarget(State(limit, den, 0, 0), w.heapAlloc) == den
    ensures After(State(limit, den, 0, stable), Repeat(w, n)) == State(limit, den, 0, stable + n)
    decreases n
  {
    if n > 0 {
      RepeatStep(w, n - 1);
      assert Next(State(limit, den, 0, stable), w) == State(limit, den, 0, stable + 1);
      IdleCounts(limit, den, stable + 1, w, n - 1);
    }
  }

  // ---- the loss rate the sampler is given ----

  /** Cumulative queue counters, read once a window. */
  datatype Counters = Counters(emitted: nat, dropped: nat)

  /** A window's loss: the 64-bit differences since the last reading. */
  function LossRate(last: Counters, now: Counters): real
  {
    var dropped := (now.dropped - last.dropped) % UINT64;
    var total := ((now.emitted - last.emitted) % UINT64 + dropped) % UINT64;
    if total == 0 then 0.0 else dropped as real / total as real
  }

  class LossMeter {
    var last: Counters

    constructor ()
      ensures last == Counters(0, 0)
    {
      last := Counters(0, 0);
    }

    /** `lossRateSince`. */
    method LossRateSince(stats: Counters) returns (rate: real)
      modifies this
      ensures rate == LossRate(old(last), stats) && last == stats
    {
      var windowEmitted := (stats.emitted - last.emitted) % UINT64;
      var windowDropped := (stats.dropped - last.dropped) % UINT64;
      last := stats;
      var total := (windowEmitted + windowDropped) % UINT64;
      if total == 0 {
        return 0.0;
      }
      return windowDropped as real / total as real;
    }
  }

  /** Readings of counters that only grow, and whose sum fits 64 bits. */
  predicate Growing(readings: seq<Counters>)
  {
    forall i | 0 < i < |readings| ::
      && readings[i - 1].emitted <= readings[i].emitted && readings[i - 1].dropped <= readings[i].dropped
      && readings[i].emitted + readings[i].dropped < UINT64
  }

  function Events(last: Counters, now: Counters): real
  {
    (now.emitted - last.emitted + now.dropped - last.dropped) as real
  }

  /** A window's rate times its events. */
  function Lost(last: Counters, now: Counters): real
  {
    LossRate(last, now) * Events(last, now)
  }

  /** Events lost, window by window. */
  function LostByWindow(readings: seq<Counters>): real
  {
    if |readings| < 2 then 0.0
    else
      var n := |readings|;
      LostByWindow(readings[..n - 1]) + Lost(readings[n - 2], readings[n - 1])
  }

  /** Every rate is a proportion, and the windows' losses add up to all that was dropped: no drop is
   *  missed or counted in two windows. */
  lemma LossesAddUp(readings: seq<Counters>)
    requires |readings| > 0 && Growing(readings)
    ensures forall i | 0 < i < |readings| :: 0.0 <= LossRate(readings[i - 1], readings[i]) <= 1.0
    ensures LostByWindow(readings) == (readings[|readings| - 1].dropped - readings[0].dropped) as real
  {
    hide LossRate, LostByWindow, Lost;
    forall i | 0 < i < |readings|
      ensures 0.0 <= LossRate(readings[i - 1], readings[i]) <= 1.0
    {
      OneWindow(readings[i - 1], readings[i]);
    }
    LossesSum(readings);
  }

  lemma {:induction false} LossesSum(readings: seq<Counters>)
    requires |readings| > 0 && Growing(readings)
    ensures LostByWindow(readings) == (readings[|readings| - 1].dropped - readings[0].dropped) as real
  {
    hide Lost;
    var n := |readings|;
    if n > 1 {
      var before, last, now := readings[..n - 1], readings[n - 2], readings[n - 1];
      LossesSum(before);
      OneWindow(last, now);
      Telescope(readings[0].dropped, last.dropped, now.dropped);
    }
  }

  lemma Telescope(a: int, b: int, c: int)
    ensures (b - a) as real + (c - b) as real == (c - a) as real
  {
  }

  lemma OneWindow(last: Counters, now: Counters)
    requires last.emitted <= now.emitted && last.dropped <= now.dropped && now.emitted + now.dropped < UINT64
    ensures 0.0 <= LossRate(last, now) <= 1.0
    ensures Lost(last, now) == (now.dropped - last.dropped) as real
  {
    hide LossRate, Events;
    var dropped, total := now.dropped - last.dropped, now.emitted - last.emitted + (now.dropped - last.dropped);
    RateIs(last, now);
    if total > 0 { Proportion(dropped as real, total as real); }
  }

  lemma RateIs(last: Counters, now: Counters)
    requires last.emitted <= now.emitted && last.dropped <= now.dropped && now.emitted + now.dropped < UINT64
    ensures var dropped, total := now.dropped - last.dropped, now.emitted - last.emitted + (now.dropped - last.dropped);
            Events(last, now) == total as real && LossRate(last, now) == if total == 0 then 0.0 else dropped as real / total as real
  {
    var emitted, dropped := now.emitted - last.emitted, now.dropped - last.dropped;
    Unwrapped(emitted);
    Unwrapped(dropped);
    Unwrapped(emitted + dropped);
  }

  lemma Unwrapped(n: int)
    requires 0 <= n < UINT64
    ensures n % UINT64 == n
  {
  }

  lemma Proportion(a: real, b: real)
    requires 0.0 <= a <= b && b > 0.0
    ensures 0.0 <= a / b <= 1.0 && a / b * b == a
  {
  }
}
