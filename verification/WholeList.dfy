/** The main theorem of auto-fetch: a whole variable list, compiled, loaded, run and rendered, with
 *  whatever type recipes both sides have learned. */
module WholeList {
  import opened Wrappers
  import opened Words
  import opened GoTypes
  import opened FetchRules
  import opened FetchPlan
  import opened TargetMemory
  import KernelFetch
  import opened Snapshot
  import opened Render
  import opened LiveView
  import opened TypeRecipe
  import opened AutoFetch
  import opened Faithfulness
  import opened AutoFetchTheorem
  import opened Recipes
  import opened RecipeTheorem

  // ---- the variables the planner takes ----

  /** The variables that are planned; the others are skipped. */
  function Kept(env: TypeEnv, vars: seq<Variable>, used: nat): seq<Variable>
    decreases vars
  {
    if vars == [] then []
    else if !Plannable(env, vars[0].typ, used) then Kept(env, vars[1..], used)
    else [vars[0]] + Kept(env, vars[1..], used + PlannedValue(env, vars[0].typ, vars[0].name).LeafCount())
  }

  function KeptBefore(env: TypeEnv, vars: seq<Variable>, i: nat): seq<Variable>
    requires i <= |vars|
  {
    Kept(env, vars[..i], 0)
  }

  function LeavesOf(env: TypeEnv, vars: seq<Variable>): nat
  {
    LeafOf(env, vars, |vars|)
  }

  /** Where the planner looks for the variable: the word after those of the planned ones before it. */
  function PlannedWord(env: TypeEnv, vars: seq<Variable>, i: nat): nat
    requires i <= |vars|
  {
    WordOf(KeptBefore(env, vars, i), |KeptBefore(env, vars, i)|)
  }

  predicate IsPlanned(env: TypeEnv, vars: seq<Variable>, i: nat)
    requires i < |vars|
  {
    Plannable(env, vars[i].typ, LeavesOf(env, KeptBefore(env, vars, i)))
  }

  /** Types of which every part can be fetched: no array, function or complex number in them, and no
   *  struct without fields. */
  predicate Supported(t: GoType)
  {
    match t
    case Named(b) => Supported(b)
    case Struct(_, fields, _) => fields != [] && forall f <- fields :: Supported(f.typ)
    case Opaque(_) => false
    case _ => true
  }

  /** A variable is planned if and only if its type is supported and, with the leaves of the variables
   *  planned before it, there are at most eight. */
  lemma PlannedIff(env: TypeEnv, vars: seq<Variable>, i: nat)
    requires i < |vars|
    ensures IsPlanned(env, vars, i)
       <==> && Supported(vars[i].typ)
            && LeavesOf(env, KeptBefore(env, vars, i)) + PlannedValue(env, vars[i].typ, vars[i].name).LeafCount() <= 8
  {
    hide Supported, AbiWordCount;
    SupportedIff(vars[i].typ);
  }

  lemma {:induction false} SupportedIff(t: GoType)
    ensures AbiWordCount(t) > 0 <==> Supported(t)
    decreases t
  {
    match t
    case Named(b) => SupportedIff(b);
    case Struct(_, fields, _) => FieldsSupportedIff(fields);
    case _ =>
  }

  lemma {:induction false} FieldsSupportedIff(fields: seq<Field>)
    ensures FieldWordCount(fields) > 0 <==> fields != [] && forall f <- fields :: Supported(f.typ)
    decreases fields
  {
    hide AbiWordCount, Supported;
    if fields != [] {
      assert fields == [fields[0]] + fields[1..];
      SupportedIff(fields[0].typ);
      FieldsSupportedIff(fields[1..]);
    }
  }

  lemma PlannedNotFull(env: TypeEnv, t: GoType, name: string, used: nat)
    requires Plannable(env, t, used)
    ensures used < MAX_FETCH_ARGS && used + PlannedValue(env, t, name).LeafCount() <= MAX_FETCH_ARGS
  {
  }

  lemma {:induction false} FullKeepsNone(env: TypeEnv, vars: seq<Variable>, used: nat)
    requires used >= MAX_FETCH_ARGS
    ensures Kept(env, vars, used) == []
    decreases vars
  {
    if vars != [] { FullKeepsNone(env, vars[1..], used); }
  }

  /** The plan is that of the kept variables, one after the other. */
  lemma {:induction false} KeptPlan(env: TypeEnv, vars: seq<Variable>, wi: nat, used: nat)
    requires used <= MAX_FETCH_ARGS
    ensures PlanList(env, vars, wi, used) == (AllSpecs(env, Kept(env, vars, used), wi), AllValues(env, Kept(env, vars, used)))
    decreases vars
  {
    hide ValueSpecs, AbiWordCount, ValueCaptures;
    if vars != [] && used < MAX_FETCH_ARGS {
      if Plannable(env, vars[0].typ, used) {
        var value := PlannedValue(env, vars[0].typ, vars[0].name);
        PlannedNotFull(env, vars[0].typ, vars[0].name, used);
        KeptPlan(env, vars[1..], wi + value.wordCount, used + value.LeafCount());
        var rest := Kept(env, vars[1..], used + value.LeafCount());
        assert ([vars[0]] + rest)[1..] == rest;
      } else {
        KeptPlan(env, vars[1..], wi, used);
      }
    } else {
      FullKeepsNoneIf(env, vars, used);
    }
  }

  lemma FullKeepsNoneIf(env: TypeEnv, vars: seq<Variable>, used: nat)
    requires vars == [] || used >= MAX_FETCH_ARGS
    ensures Kept(env, vars, used) == []
  {
    if vars != [] { FullKeepsNone(env, vars, used); }
  }

  /** The kept variables are the kept ones before a position and the kept ones after it. */
  lemma {:induction false} KeptSplit(env: TypeEnv, vars: seq<Variable>, i: nat, used: nat)
    requires i <= |vars|
    ensures var before := Kept(env, vars[..i], used);
            Kept(env, vars, used) == before + Kept(env, vars[i..], used + LeavesOf(env, before))
    decreases i
  {
    hide Plannable, PlannedValue;
    if i == 0 {
      assert vars[..0] == [] && vars[0..] == vars;
    } else {
      assert vars[..i][1..] == vars[1..][..i - 1] && vars[1..][i - 1..] == vars[i..];
      if Plannable(env, vars[0].typ, used) {
        var n := PlannedValue(env, vars[0].typ, vars[0].name).LeafCount();
        KeptSplit(env, vars[1..], i - 1, used + n);
        var rest := Kept(env, vars[1..][..i - 1], used + n);
        assert ([vars[0]] + rest)[1..] == rest;
      } else {
        KeptSplit(env, vars[1..], i - 1, used);
      }
    }
  }

  /** A planned variable's place among the kept ones. */
  lemma PlaceOf(env: TypeEnv, vars: seq<Variable>, i: nat)
    requires i < |vars| && IsPlanned(env, vars, i)
    ensures var kept, k := Kept(env, vars, 0), |KeptBefore(env, vars, i)|;
            k < |kept| && kept[k] == vars[i] && kept[..k] == KeptBefore(env, vars, i)
  {
    hide Plannable;
    KeptSplit(env, vars, i, 0);
    assert vars[i..][0] == vars[i];
  }

  /** Kept variables are variables of the list, in the list's order. */
  lemma {:induction false} KeptFrom(env: TypeEnv, vars: seq<Variable>, used: nat)
    ensures forall v <- Kept(env, vars, used) :: v in vars && AbiWordCount(v.typ) > 0
    ensures Names(Kept(env, vars, used)) <= Names(vars)
    decreases vars
  {
    hide AbiWordCount, PlannedValue;
    if vars != [] {
      var used' := used + PlannedValue(env, vars[0].typ, vars[0].name).LeafCount();
      var rest := Kept(env, vars[1..], if Plannable(env, vars[0].typ, used) then used' else used);
      KeptFrom(env, vars[1..], if Plannable(env, vars[0].typ, used) then used' else used);
      forall x | x in Names(Kept(env, vars, used))
        ensures x in Names(vars)
      {
        var kept := Kept(env, vars, used);
        var j :| 0 <= j < |kept| && kept[j].name == x;
        var m :| 0 <= m < |vars| && vars[m] == kept[j];
      }
    }
  }

  lemma {:induction false} KeptNames(env: TypeEnv, vars: seq<Variable>, used: nat)
    requires GoNames(env, vars)
    ensures GoNames(env, Kept(env, vars, used))
    decreases vars
  {
    hide DotFree, TypelessVar, Plannable, PlannedValue, Names;
    if vars != [] {
      FirstName(env, vars);
      var used' := used + PlannedValue(env, vars[0].typ, vars[0].name).LeafCount();
      var rest := Kept(env, vars[1..], if Plannable(env, vars[0].typ, used) then used' else used);
      KeptNames(env, vars[1..], if Plannable(env, vars[0].typ, used) then used' else used);
      KeptFrom(env, vars[1..], if Plannable(env, vars[0].typ, used) then used' else used);
      JoinNames(env, vars[0], rest);
    }
  }

  lemma JoinNames(env: TypeEnv, v: Variable, rest: seq<Variable>)
    requires DotFree(v.name) && TypelessVar(env, v.typ)
    requires GoNames(env, rest) && v.name !in Names(rest)
    ensures GoNames(env, [v] + rest)
  {
    hide DotFree, TypelessVar;
    forall i, j | 0 <= i < j < |[v] + rest|
      ensures ([v] + rest)[i].name != ([v] + rest)[j].name
    {
      assert rest[j - 1].name in Names(rest);
    }
  }

  lemma {:induction false} LeafOfPrefix(env: TypeEnv, vars: seq<Variable>, k: nat)
    requires k <= |vars|
    ensures LeafOf(env, vars, k) == LeavesOf(env, vars[..k]) && WordOf(vars, k) == WordOf(vars[..k], k)
    decreases k
  {
    hide PlannedValue, AbiWordCount;
    if k > 0 {
      LeafOfPrefix(env, vars[1..], k - 1);
      assert vars[..k][1..] == vars[1..][..k - 1];
    }
  }

  // ---- the theorem ----

  /** A program at a probe: its registers and memory, what was loaded, and both sides' tables. */
  ghost predicate Probed(env: TypeEnv, vars: seq<Variable>, args: seq<FetchArg>, e: Event)
  {
    && e.specs == PlanList(env, vars, 0, 0).0
    && Loaded(e.specs, args, e.rules)
    && SameTable(e.user, e.kernel)
  }

  /** Every variable that is planned before position `i` is orderly. */
  predicate OrderlyBefore(env: TypeEnv, vars: seq<Variable>, i: nat)
    requires i <= |vars|
  {
    forall v <- KeptBefore(env, vars, i) :: Orderly(env, v.typ)
  }

  /** Nobody else takes the variable's recipe leaves: there are no rules for it, or it is a top-level
   *  interface, the names are Go's and every planned variable before it is orderly. */
  ghost predicate Undisturbed(env: TypeEnv, vars: seq<Variable>, i: nat, e: Event)
    requires i < |vars|
  {
    || Quiet(env, vars[i].typ, PlannedWord(env, vars, i), e.ctx, e.mem, e.user)
    || (Underlying(vars[i].typ).Iface? && GoNames(env, vars) && OrderlyBefore(env, vars, i))
  }

  /** What the decoder shows of the event. */
  function ShownList(d: Decoder, vars: seq<Variable>, e: Event): seq<NamedValue>
    requires KernelFetch.ValidRecipes(e.kernel) && |e.specs| <= MAX_FETCH_ARGS
  {
    RenderList(d, PlanList(d.env, vars, 0, 0).1, EventOf(e), 0, |e.specs|, e.user)
  }

  /** The event sent, and the list as the planner left it. */
  lemma ProbedEvent(env: TypeEnv, vars: seq<Variable>, args: seq<FetchArg>, e: Event)
    requires Probed(env, vars, args, e)
    ensures Sent(e) && |e.specs| == |e.rules| <= MAX_FETCH_ARGS && forall r <- e.rules :: r.Valid()
    ensures KernelFetch.ValidRecipes(e.kernel)
    ensures KernelFetch.WithRecipes(e.mem, e.rules, 0, KernelFetch.FetchAll(e.ctx, e.mem, e.rules), e.kernel) == EventOf(e)
    ensures PlanList(env, vars, 0, 0) == (e.specs, AllValues(env, Kept(env, vars, 0)))
    ensures LaidOut(env, e.specs, 0, Kept(env, vars, 0), 0)
    ensures GoNames(env, vars) ==> TailAt(env, e.specs, 0, Kept(env, vars, 0), 0)
    ensures OwnCursor(e, 0) == |e.specs|
  {
    hide PlanList, Loaded, AllSpecs, AllValues, OwedIn, RulesFor, AllInAbi, SameTable, Exec, WordRegs, Kept, GoNames, AbiWordCount,
         KernelFetch.FetchOne, KernelFetch.WithRecipes, KernelFetch.ValidRecipes;
    PlanIsWhole(env, vars, 0, 0);
    PlanTakesRegistersInOrder(env, vars, 0, 0);
    KeptPlan(env, vars, 0, 0);
    EventSent(e, args);
    RulesCount(e.specs, e.rules);
    if GoNames(env, vars) { KeptNames(env, vars, 0); }
    KeptFrom(env, vars, 0);
    WholeTail(env, e.specs, Kept(env, vars, 0));
    OwedNothingYet(e);
  }

  lemma OwedNothingYet(e: Event)
    requires KernelFetch.ValidRecipes(e.kernel)
    ensures OwedIn(e, 0, 0) == []
  {
  }

  /** Recipe leaves line up. For any list, any registers, any memory and any recipes that both sides
   *  hold: a top-level interface before which every planned variable is orderly is given the very
   *  leaves the probe appended for it. */
  lemma RecipeLeavesLineUp(d: Decoder, vars: seq<Variable>, i: nat, args: seq<FetchArg>, e: Event)
    requires Probed(d.env, vars, args, e) && i < |vars| && IsPlanned(d.env, vars, i)
    requires GoNames(d.env, vars) && Underlying(vars[i].typ).Iface? && OrderlyBefore(d.env, vars, i)
    ensures |e.specs| == |e.rules| <= MAX_FETCH_ARGS && KernelFetch.ValidRecipes(e.kernel)
    ensures var k := |KeptBefore(d.env, vars, i)|;
            var values := PlanList(d.env, vars, 0, 0).1;
            var at := LeavesOf(d.env, KeptBefore(d.env, vars, i));
            && k <= |values| && at <= |e.rules|
            && Cursors(d, values, k, EventOf(e), 0, |e.specs|, e.user) == (at, OwnCursor(e, at))
            && OwnLeaves(EventOf(e), OwnCursor(e, at), IfaceOwed(e.mem, Generic(e), at, e.kernel))
  {
    hide Probed, EventOf, Cursors, OwnCursor, OwnLeaves, TailAt, LaidOut, GroupAt, GoNames, Sent, IfaceOwed, PlanList, Kept, Orderly, AllValues, LeafOf, WordOf,
         KernelFetch.ValidRecipes, Plannable, ValueSpecs, PlannedValue, AbiWordCount;
    ProbedEvent(d.env, vars, args, e);
    PlaceOf(d.env, vars, i);
    var kept, k := Kept(d.env, vars, 0), |KeptBefore(d.env, vars, i)|;
    LeafOfPrefix(d.env, kept, k);
    forall j | 0 <= j < k
      ensures Orderly(d.env, kept[j].typ)
    {
      assert kept[j] == kept[..k][j] && kept[..k][j] in kept[..k];
    }
    OwnLeavesAt(d, e, kept, k);
  }

  /** The same of a list that is planned whole. */
  lemma OwnLeavesAt(d: Decoder, e: Event, vars: seq<Variable>, k: nat)
    requires Sent(e) && TailAt(d.env, e.specs, 0, vars, 0) && k < |vars| && Underlying(vars[k].typ).Iface?
    requires forall j | 0 <= j < k :: Orderly(d.env, vars[j].typ)
    ensures KernelFetch.ValidRecipes(e.kernel) && |e.specs| == |e.rules| <= MAX_FETCH_ARGS && LeafOf(d.env, vars, k) <= |e.rules|
    ensures var at := LeafOf(d.env, vars, k);
            && Cursors(d, AllValues(d.env, vars), k, EventOf(e), 0, OwnCursor(e, 0), e.user) == (at, OwnCursor(e, at))
            && OwnLeaves(EventOf(e), OwnCursor(e, at), IfaceOwed(e.mem, Generic(e), at, e.kernel))
  {
    hide EventOf, Cursors, OwnCursor, OwnLeaves, TailAt, GroupAt, IfaceOwed, Orderly, AllValues, LeafOf, WordOf, SameTable, RulesFor,
         KernelFetch.ValidRecipes, ValueSpecs, PlannedValue, AbiWordCount;
    CursorsOwn(d, e, 0, vars, 0, k);
    GroupOf(d.env, e.specs, 0, vars, 0, k);
    TailInside(d.env, e.specs, 0, vars, 0);
    IfaceIsOrderly(d.env, vars[k].typ);
    HeadTakes(d, e, LeafOf(d.env, vars, k), vars[k], WordOf(vars, k));
  }

  lemma IfaceIsOrderly(env: TypeEnv, t: GoType)
    requires Underlying(t).Iface?
    ensures Orderly(env, t)
  {
  }

  /** Auto-fetch is faithful. Take any variable list with skipped variables anywhere, any registers,
   *  any memory and any recipes that both sides hold; compile the list, load the rules, run the
   *  probe and render the event. A planned variable that lies in the registers the planner reads,
   *  and whose recipe leaves nobody else takes, is shown under its name and nothing false is shown
   *  of it. */
  lemma AutoFetchFaithful(d: Decoder, vars: seq<Variable>, i: nat, val: Bytes, args: seq<FetchArg>, e: Event)
    requires Process(d, e.mem) && Probed(d.env, vars, args, e) && i < |vars| && IsPlanned(d.env, vars, i)
    requires Covered(d.env, vars[i].typ) && TopPlain(d, vars[i].typ, val, e.mem)
    requires VariableHeld(vars[i].typ, val, PlannedWord(d.env, vars, i), e.ctx, e.mem)
    requires Undisturbed(d.env, vars, i, e)
    ensures |e.rules| <= MAX_FETCH_ARGS && (forall r <- e.rules :: r.Valid()) && KernelFetch.ValidRecipes(e.kernel)
    ensures var all := KernelFetch.WithRecipes(e.mem, e.rules, 0, KernelFetch.FetchAll(e.ctx, e.mem, e.rules), e.kernel);
            var shown := RenderList(d, PlanList(d.env, vars, 0, 0).1, all, 0, |e.rules|, e.user);
            var k := |KeptBefore(d.env, vars, i)|;
            k < |shown| && ShowsTruly(d, shown[k], vars[i], val, e.mem)
  {
    hide Probed, EventOf, OwnLeaves, TailAt, LaidOut, SliceAt, GoNames, IfaceOwed, PlanList, Kept, Orderly, LeafOf, WordOf,
         Plannable, ValueSpecs, Process, Covered, TopPlain, VariableHeld, Quiet, Faithful, TopView,
         RenderLeaves, RenderList, SameTable, RulesFor, AbiWordCount, ValueCaptures, KernelFetch.ValidRecipes, KernelFetch.WithRecipes, AllValues;
    ProbedEvent(d.env, vars, args, e);
    ShownOf(d, vars, i, args, e);
    if !Quiet(d.env, vars[i].typ, PlannedWord(d.env, vars, i), e.ctx, e.mem, e.user) {
      RecipeLeavesLineUp(d, vars, i, args, e);
    }
    VariableShown(d, e, vars[i], val, PlannedWord(d.env, vars, i), LeavesOf(d.env, KeptBefore(d.env, vars, i)), ExtraAt(d, vars, i, e));
  }

  /** One variable, without recipes or with its own recipe leaves. */
  lemma VariableShown(d: Decoder, e: Event, v: Variable, val: Bytes, wi: nat, off: nat, extra: nat)
    requires Process(d, e.mem) && Sent(e) && Covered(d.env, v.typ) && TopPlain(d, v.typ, val, e.mem)
    requires VariableHeld(v.typ, val, wi, e.ctx, e.mem) && SliceAt(d.env, e.specs, off, v, wi) && |e.specs| <= MAX_FETCH_ARGS
    requires wi + AbiWordCount(v.typ) <= |ABI_REGS|
    requires || Quiet(d.env, v.typ, wi, e.ctx, e.mem, e.user)
             || (Underlying(v.typ).Iface? && OwnLeaves(EventOf(e), extra, IfaceOwed(e.mem, Generic(e), off, e.kernel)))
    ensures var value := PlannedValue(d.env, v.typ, v.name);
            var leaves := ExecAll(e.ctx, e.mem, ValueSpecs(d.env, v.typ, v.name, wi));
            && |leaves| == value.LeafCount()
            && var shown := RenderLeaves(d, value, leaves[..value.wordCount], leaves[value.wordCount..], EventOf(e), extra, e.user);
               Faithful(shown.rendered, TopView(d, v.typ, val, e.mem))
  {
    hide EventOf, RenderLeaves, Faithful, TopView, Process, SameTable, Exec, TopPlain, VariableHeld, SliceAt, IfaceOwed, OwnLeaves,
         Covered, ValueSpecs, RulesFor, Quiet, KernelFetch.ValidRecipes;
    if Quiet(d.env, v.typ, wi, e.ctx, e.mem, e.user) {
      ValueFaithful(d, v, wi, val, e.ctx, e.mem, EventOf(e), extra, e.user);
    } else {
      UnderlyingFacts(v.typ);
      InterfaceShown(d, e, v, val, wi, off, extra);
    }
  }

  /** A settled variable has no recipes; so a variable of a list planned up to it in order, each a
   *  scalar, a string, a slice, a struct without interfaces, a pointer to one or a top-level
   *  interface, is undisturbed whatever recipes are known. */
  lemma OrderlyIsUndisturbed(env: TypeEnv, vars: seq<Variable>, i: nat, e: Event)
    requires i < |vars| && OrderlyBefore(env, vars, i) && Orderly(env, vars[i].typ)
    requires Underlying(vars[i].typ).Iface? ==> GoNames(env, vars)
    ensures Undisturbed(env, vars, i, e)
  {
    hide KeptBefore, PlannedWord, Exec, OrderlyBefore, GoNames;
    if !Underlying(vars[i].typ).Iface? {
      SettledIsQuiet(env, vars[i].typ, PlannedWord(env, vars, i), e.ctx, e.mem, e.user);
    }
  }

  /** The variable's value lies where the planner looks for it. */
  predicate InPlace(d: Decoder, vars: seq<Variable>, i: nat, val: Bytes, e: Event)
    requires i < |vars|
  {
    && Covered(d.env, vars[i].typ) && TopPlain(d, vars[i].typ, val, e.mem)
    && VariableHeld(vars[i].typ, val, PlannedWord(d.env, vars, i), e.ctx, e.mem)
  }

  /** So of a list of which every planned variable is of these kinds and in its place, all that is
   *  shown is true, with any recipes. */
  lemma OrderlyListFaithful(d: Decoder, vars: seq<Variable>, vals: seq<Bytes>, args: seq<FetchArg>, e: Event)
    requires Process(d, e.mem) && Probed(d.env, vars, args, e) && |vals| == |vars|
    requires OrderlyBefore(d.env, vars, |vars|)
    requires GoNames(d.env, vars) || forall i | 0 <= i < |vars| && IsPlanned(d.env, vars, i) :: !Underlying(vars[i].typ).Iface?
    requires forall i | 0 <= i < |vars| && IsPlanned(d.env, vars, i) :: InPlace(d, vars, i, vals[i], e)
    ensures |e.specs| <= MAX_FETCH_ARGS && KernelFetch.ValidRecipes(e.kernel)
    ensures forall i | 0 <= i < |vars| && IsPlanned(d.env, vars, i) ::
              var k := |KeptBefore(d.env, vars, i)|;
              k < |ShownList(d, vars, e)| && ShowsTruly(d, ShownList(d, vars, e)[k], vars[i], vals[i], e.mem)
  {
    hide Probed, EventOf, PlanList, IsPlanned, KeptBefore, OrderlyBefore, GoNames, Undisturbed, Process, ShowsTruly, InPlace, RenderList,
         KernelFetch.ValidRecipes, KernelFetch.WithRecipes;
    ProbedEvent(d.env, vars, args, e);
    forall i | 0 <= i < |vars| && IsPlanned(d.env, vars, i)
      ensures |KeptBefore(d.env, vars, i)| < |ShownList(d, vars, e)|
      ensures ShowsTruly(d, ShownList(d, vars, e)[|KeptBefore(d.env, vars, i)|], vars[i], vals[i], e.mem)
    {
      OrderlySoFar(d.env, vars, i);
      OrderlyIsUndisturbed(d.env, vars, i, e);
      InPlaceShown(d, vars, i, vals[i], args, e);
    }
  }

  lemma OrderlySoFar(env: TypeEnv, vars: seq<Variable>, i: nat)
    requires i < |vars| && IsPlanned(env, vars, i) && OrderlyBefore(env, vars, |vars|)
    ensures OrderlyBefore(env, vars, i) && Orderly(env, vars[i].typ)
  {
    hide Orderly, Kept, IsPlanned;
    PlaceOf(env, vars, i);
    assert vars[..|vars|] == vars;
    var kept, k := Kept(env, vars, 0), |KeptBefore(env, vars, i)|;
    assert kept[k] in kept;
    forall v | v in kept[..k]
      ensures v in kept
    {
    }
  }

  lemma InPlaceShown(d: Decoder, vars: seq<Variable>, i: nat, val: Bytes, args: seq<FetchArg>, e: Event)
    requires Process(d, e.mem) && Probed(d.env, vars, args, e) && i < |vars| && IsPlanned(d.env, vars, i)
    requires InPlace(d, vars, i, val, e) && Undisturbed(d.env, vars, i, e)
    ensures |e.specs| <= MAX_FETCH_ARGS && KernelFetch.ValidRecipes(e.kernel)
    ensures |KeptBefore(d.env, vars, i)| < |ShownList(d, vars, e)|
    ensures ShowsTruly(d, ShownList(d, vars, e)[|KeptBefore(d.env, vars, i)|], vars[i], val, e.mem)
  {
    hide Probed, EventOf, PlanList, IsPlanned, KeptBefore, Undisturbed, Process, ShowsTruly, RenderList, PlannedWord, Covered, TopPlain,
         VariableHeld, KernelFetch.ValidRecipes, KernelFetch.WithRecipes;
    ProbedEvent(d.env, vars, args, e);
    AutoFetchFaithful(d, vars, i, val, args, e);
  }

  lemma SettledIsQuiet(env: TypeEnv, t: GoType, wi: nat, ctx: KernelFetch.PtRegs, mem: Memory, user: RecipeTable)
    requires Settled(env, t)
    ensures Quiet(env, t, wi, ctx, mem, user)
  {
    hide Exec, NoneKnown;
    var u := Underlying(t);
    if u.Ptr? && IsCapturedStruct(env(u.target)) {
      NothingNear(user, env(u.target), Exec(ctx, mem, BlobAt("", MemLoc(Reg(wi), [], true))).data);
    }
  }

  /** The recipe leaf the decoder would take next when it comes to a planned variable. */
  function ExtraAt(d: Decoder, vars: seq<Variable>, i: nat, e: Event): nat
    requires i < |vars| && KernelFetch.ValidRecipes(e.kernel) && |e.specs| <= MAX_FETCH_ARGS
  {
    var values, k := PlanList(d.env, vars, 0, 0).1, |KeptBefore(d.env, vars, i)|;
    if k <= |values| then Cursors(d, values, k, EventOf(e), 0, |e.specs|, e.user).1 else 0
  }

  /** A planned variable is shown from its own leaves: those its rules fetched, and the recipe leaves
   *  from the decoder's second cursor on. */
  lemma ShownOf(d: Decoder, vars: seq<Variable>, i: nat, args: seq<FetchArg>, e: Event)
    requires Probed(d.env, vars, args, e) && i < |vars| && IsPlanned(d.env, vars, i)
    ensures KernelFetch.ValidRecipes(e.kernel) && |e.specs| <= MAX_FETCH_ARGS
    ensures var v, wi := vars[i], PlannedWord(d.env, vars, i);
            var off, k := LeavesOf(d.env, KeptBefore(d.env, vars, i)), |KeptBefore(d.env, vars, i)|;
            var value := PlannedValue(d.env, v.typ, v.name);
            var leaves := ExecAll(e.ctx, e.mem, ValueSpecs(d.env, v.typ, v.name, wi));
            && wi + AbiWordCount(v.typ) <= MAX_FETCH_ARGS && |leaves| == value.LeafCount()
            && SliceAt(d.env, e.specs, off, v, wi)
            && k < |ShownList(d, vars, e)|
            && var shown := RenderLeaves(d, value, leaves[..value.wordCount], leaves[value.wordCount..], EventOf(e),
                                         ExtraAt(d, vars, i, e), e.user);
               ShownList(d, vars, e)[k] == NamedValue(v.name, shown.rendered)
  {
    hide Probed, EventOf, Cursors, TailAt, LaidOut, SliceAt, GoNames, PlanList, Kept, LeafOf, WordOf, Sent, PlannedValue,
         ValueSpecs, RenderLeaves, RenderList, AbiWordCount, KernelFetch.ValidRecipes, AllValues, OwnCursor;
    ProbedEvent(d.env, vars, args, e);
    PlaceOf(d.env, vars, i);
    var kept, k := Kept(d.env, vars, 0), |KeptBefore(d.env, vars, i)|;
    LeafOfPrefix(d.env, kept, k);
    ShownOfKept(d, kept, k, e);
  }

  /** The same of a list that is planned whole. */
  lemma ShownOfKept(d: Decoder, vars: seq<Variable>, k: nat, e: Event)
    requires Sent(e) && LaidOut(d.env, e.specs, 0, vars, 0) && k < |vars|
    ensures KernelFetch.ValidRecipes(e.kernel) && |e.specs| <= MAX_FETCH_ARGS
    ensures var v, wi, off := vars[k], WordOf(vars, k), LeafOf(d.env, vars, k);
            var value := PlannedValue(d.env, v.typ, v.name);
            var leaves := ExecAll(e.ctx, e.mem, ValueSpecs(d.env, v.typ, v.name, wi));
            var extra := Cursors(d, AllValues(d.env, vars), k, EventOf(e), 0, |e.specs|, e.user).1;
            && wi + AbiWordCount(v.typ) <= MAX_FETCH_ARGS && |leaves| == value.LeafCount()
            && SliceAt(d.env, e.specs, off, v, wi)
            && var shown := RenderLeaves(d, value, leaves[..value.wordCount], leaves[value.wordCount..], EventOf(e), extra, e.user);
               RenderList(d, AllValues(d.env, vars), EventOf(e), 0, |e.specs|, e.user)[k] == NamedValue(v.name, shown.rendered)
  {
    hide EventOf, Cursors, LaidOut, SliceAt, LeafOf, WordOf, SameTable, RulesFor,
         ValueSpecs, RenderLeaves, RenderList, AbiWordCount, ValueCaptures, KernelFetch.ValidRecipes, AllValues, OwnCursor;
    RulesCount(e.specs, e.rules);
    var all, values := EventOf(e), AllValues(d.env, vars);
    SliceOf(d.env, e.specs, 0, vars, 0, k);
    var off, wi := LeafOf(d.env, vars, k), WordOf(vars, k);
    CursorAtOwn(d, e, 0, vars, 0, k, |e.specs|);
    ShownAt(d, values, k, all, 0, |e.specs|, e.user);
    ValueAt(d.env, vars, k);
    EventSlice(d.env, e, off, vars[k], wi, PlannedValue(d.env, vars[k].typ, vars[k].name).wordCount);
  }

  lemma {:induction false} ValueAt(env: TypeEnv, vars: seq<Variable>, k: nat)
    requires k < |vars|
    ensures AllValues(env, vars)[k] == PlannedValue(env, vars[k].typ, vars[k].name)
    decreases k
  {
    hide PlannedValue;
    if k > 0 { ValueAt(env, vars[1..], k - 1); }
  }

  /** A top-level interface with its own recipe leaves. */
  lemma InterfaceShown(d: Decoder, e: Event, v: Variable, val: Bytes, wi: nat, off: nat, extra: nat)
    requires Process(d, e.mem) && Sent(e) && Covered(d.env, v.typ) && TopPlain(d, v.typ, val, e.mem)
    requires VariableHeld(v.typ, val, wi, e.ctx, e.mem) && SliceAt(d.env, e.specs, off, v, wi) && |e.specs| <= MAX_FETCH_ARGS
    requires wi + 2 <= |ABI_REGS| && Underlying(v.typ).Iface?
    requires OwnLeaves(EventOf(e), extra, IfaceOwed(e.mem, Generic(e), off, e.kernel))
    ensures var leaves := ExecAll(e.ctx, e.mem, ValueSpecs(d.env, v.typ, v.name, wi));
            && |leaves| == 3
            && var shown := RenderLeaves(d, PlannedValue(d.env, v.typ, v.name), leaves[..2], leaves[2..], EventOf(e), extra, e.user);
               Faithful(shown.rendered, TopView(d, v.typ, val, e.mem))
  {
    hide EventOf, RenderLeaves, Faithful, TopView, Process, SameTable, Stem, Exec, TopPlain, VariableHeld, SliceAt, IfaceOwed, OwnLeaves,
         DotFree, TypelessVar, Covered, WordSpecs, RegBlobs, ValueSpecs, RulesFor;
    SameOwed(d.env, e, off, v, wi);
    IfaceParts(d.env, v, wi, e.ctx, e.mem);
    var leaves := ExecAll(e.ctx, e.mem, ValueSpecs(d.env, v.typ, v.name, wi));
    IfaceShown(d, v, wi, val, e.ctx, e.mem, leaves[..2], leaves[2..], EventOf(e), extra, e.user, e.kernel);
  }

  lemma IfaceParts(env: TypeEnv, v: Variable, wi: nat, ctx: KernelFetch.PtRegs, mem: Memory)
    requires Underlying(v.typ).Iface?
    ensures var u := Underlying(v.typ);
            var leaves := ExecAll(ctx, mem, ValueSpecs(env, v.typ, v.name, wi));
            && |leaves| == 3
            && leaves[..2] == ExecAll(ctx, mem, WordSpecs(u, v.name, wi))
            && leaves[2..] == ExecAll(ctx, mem, RegBlobs(u, v.name, wi))
  {
    hide Exec;
    ExecSplit(ctx, mem, WordSpecs(Underlying(v.typ), v.name, wi), RegBlobs(Underlying(v.typ), v.name, wi));
  }
}
