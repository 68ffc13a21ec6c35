/** Exactly when an interface is given its own recipe leaves. */
module OwnLeaves {
  import opened Wrappers
  import opened Words
  import opened GoTypes
  import opened FetchRules
  import opened FetchPlan
  import opened TargetMemory
  import KernelFetch
  import opened Scatter
  import opened Snapshot
  import opened Render
  import opened LiveView
  import opened TypeRecipe
  import opened AutoFetch
  import opened Faithfulness
  import opened AutoFetchTheorem
  import opened Recipes
  import opened RecipeTheorem
  import opened WholeList
  import opened Skipped

  /** When the decoder comes to the i-th variable, its recipe cursor stands at that variable's own
   *  leaves: behind those the probe appended for the variables before it. */
  ghost predicate TakesOwn(d: Decoder, vars: seq<Variable>, i: nat, e: Event)
    requires i < |vars|
  {
    && |e.specs| == |e.rules| <= MAX_FETCH_ARGS && KernelFetch.ValidRecipes(e.kernel)
    && LeavesOf(d.env, KeptBefore(d.env, vars, i)) <= |e.rules|
    && ExtraAt(d, vars, i, e) == OwnCursor(e, LeavesOf(d.env, KeptBefore(d.env, vars, i)))
  }

  const PAGE := 4096

  /** Memory is mapped page by page. */
  ghost predicate Paged(mem: Memory)
  {
    forall a, b | 0 <= a <= b < ADDRESSES && a / PAGE == b / PAGE :: Mapped(mem, a) == Mapped(mem, b)
  }

  predicate Mapped(mem: Memory, a: int)
  {
    a in mem
  }

  /** It does so whatever a process and the recipe tables hold. */
  ghost predicate AlwaysTakesOwn(env: TypeEnv, vars: seq<Variable>, i: nat, args: seq<FetchArg>, rules: seq<KernelFetch.KernelRule>)
    requires i < |vars|
  {
    forall d: Decoder, e: Event | d.env == env && e.rules == rules && Probed(env, vars, args, e) && Process(d, e.mem) && Paged(e.mem) ::
      TakesOwn(d, vars, i, e)
  }

  // ---- cursors, one variable at a time ----

  lemma {:induction false} CursorStep(d: Decoder, values: seq<Value>, k: nat, all: seq<LeafData>, cur: nat, extra: nat, user: RecipeTable)
    requires k < |values| && cur <= |all|
    ensures var c := Cursors(d, values, k, all, cur, extra, user);
            var p := RenderAuto(d, values[k], all, c.0, c.1, user);
            Cursors(d, values, k + 1, all, cur, extra, user) == (p.cur, p.extra)
    decreases k
  {
    hide RenderAuto;
    var p := RenderAuto(d, values[0], all, cur, extra, user);
    if k == 0 {
      assert Cursors(d, values[1..], 0, all, p.cur, p.extra, user) == (p.cur, p.extra);
    } else {
      CursorStep(d, values[1..], k - 1, all, p.cur, p.extra, user);
    }
  }

  /** The decoder's recipe cursor before the k-th variable of a list that is planned whole. */
  function CursorAt(d: Decoder, vars: seq<Variable>, k: nat, e: Event): nat
    requires k <= |vars| && KernelFetch.ValidRecipes(e.kernel) && |e.specs| <= MAX_FETCH_ARGS
  {
    Cursors(d, AllValues(d.env, vars), k, EventOf(e), 0, |e.specs|, e.user).1
  }

  /** The number of recipe leaves taken, seen from one variable's own leaves. */
  function CursorAfter(d: Decoder, v: Variable, wi: nat, e: Event, extra: nat): nat
    requires AbiWordCount(v.typ) > 0 && KernelFetch.ValidRecipes(e.kernel) && |e.specs| <= MAX_FETCH_ARGS
  {
    var value := PlannedValue(d.env, v.typ, v.name);
    var leaves := ExecAll(e.ctx, e.mem, ValueSpecs(d.env, v.typ, v.name, wi));
    ValueSpecsCount(d.env, v.typ, v.name, wi);
    RenderLeaves(d, value, leaves[..value.wordCount], leaves[value.wordCount..], EventOf(e), extra, e.user).extra
  }

  /** From one variable to the next: its leaves, and where they move the cursor. */
  lemma CursorMoves(d: Decoder, vars: seq<Variable>, k: nat, e: Event)
    requires Sent(e) && TailAt(d.env, e.specs, 0, vars, 0) && k < |vars|
    ensures KernelFetch.ValidRecipes(e.kernel) && |e.specs| == |e.rules| <= MAX_FETCH_ARGS && AbiWordCount(vars[k].typ) > 0
    ensures var v, wi, off := vars[k], WordOf(vars, k), LeafOf(d.env, vars, k);
            var n := PlannedValue(d.env, v.typ, v.name).LeafCount();
            && GroupAt(d.env, e.specs, off, v, wi) && |ValueSpecs(d.env, v.typ, v.name, wi)| == n > 0
            && off + n <= |e.rules| && LeafOf(d.env, vars, k + 1) == off + n
            && wi + AbiWordCount(v.typ) <= MAX_FETCH_ARGS && WordOf(vars, k + 1) == wi + AbiWordCount(v.typ)
            && CursorAt(d, vars, k + 1, e) == CursorAfter(d, v, wi, e, CursorAt(d, vars, k, e))
  {
    hide EventOf, Cursors, TailAt, LaidOut, SliceAt, GroupAt, SameTable, RulesFor, ValueSpecs, RenderLeaves, AbiWordCount, ValueCaptures,
         KernelFetch.ValidRecipes, AllValues, OwnCursor, LeafOf, WordOf;
    RulesCount(e.specs, e.rules);
    var all, values := EventOf(e), AllValues(d.env, vars);
    GroupOf(d.env, e.specs, 0, vars, 0, k);
    var off, wi := LeafOf(d.env, vars, k), WordOf(vars, k);
    TailInside(d.env, e.specs, 0, vars, 0);
    CursorAtOwn(d, e, 0, vars, 0, k, |e.specs|);
    CursorStep(d, values, k, all, 0, |e.specs|, e.user);
    ValueAt(d.env, vars, k);
    GroupBound(d.env, e.specs, off, vars[k], wi);
    TailInside(d.env, e.specs, off, vars[k..], wi);
    EventSlice(d.env, e, off, vars[k], wi, PlannedValue(d.env, vars[k].typ, vars[k].name).wordCount);
    NextPlace(d.env, vars, k);
  }

  lemma {:induction false} NextPlace(env: TypeEnv, vars: seq<Variable>, k: nat)
    requires k < |vars|
    ensures LeafOf(env, vars, k + 1) == LeafOf(env, vars, k) + PlannedValue(env, vars[k].typ, vars[k].name).LeafCount()
    ensures WordOf(vars, k + 1) == WordOf(vars, k) + AbiWordCount(vars[k].typ)
    decreases k
  {
    hide PlannedValue, AbiWordCount;
    if k == 0 {
      assert LeafOf(env, vars[1..], 0) == 0 && WordOf(vars[1..], 0) == 0;
    } else {
      NextPlace(env, vars[1..], k - 1);
    }
  }

  // ---- what moves the cursor ----

  lemma {:induction false} NestedRange(user: RecipeTable, t: GoType, mem: Bytes, all: seq<LeafData>, b: Binding)
    ensures var extra := ApplyNested(user, t, mem, all, b).extra;
            b.extra <= extra && (b.extra >= |all| ==> extra == b.extra)
    decreases t
  {
    match t
    case Named(u) => NestedRange(user, u, mem, all, b);
    case Struct(_, fields, _) => NestedFieldsRange(user, fields, mem, all, b);
    case Iface(_) =>
      forall rules: seq<RelRule>, dataPtr
        ensures b.extra <= BindRecipe(rules, dataPtr, all, b).extra
        ensures b.extra >= |all| ==> BindRecipe(rules, dataPtr, all, b).extra == b.extra
      {
        if b.extra < |all| { BindCount(rules, dataPtr, all, b); }
      }
    case _ =>
  }

  lemma {:induction false} NestedFieldsRange(user: RecipeTable, fields: seq<Field>, mem: Bytes, all: seq<LeafData>, b: Binding)
    ensures var extra := ApplyNestedFields(user, fields, mem, all, b).extra;
            b.extra <= extra && (b.extra >= |all| ==> extra == b.extra)
    decreases fields
  {
    if fields != [] {
      NestedRange(user, fields[0].typ, FieldMem(mem, fields[0].offset), all, b);
      NestedFieldsRange(user, fields[1..], mem, all, ApplyNested(user, fields[0].typ, FieldMem(mem, fields[0].offset), all, b));
    }
  }

  /** In a full event there is nothing left to take. */
  lemma FullTakesNone(d: Decoder, value: Value, words: seq<LeafData>, captures: seq<LeafData>, all: seq<LeafData>,
                      extra: nat, user: RecipeTable)
    requires extra >= |all|
    ensures RenderLeaves(d, value, words, captures, all, extra, user).extra == extra
  {
    hide RenderValue, ConsumeMem, ConsumeReg, ScatteredImage, ApplyNested, ConcatLeaves;
    var u := Underlying(value.typ);
    if u.Ptr? && |captures| > 0 {
      var obj := captures[0].data;
      var chunks := Put(ReadUint(ConcatLeaves(words)), captures[0]) + ConsumeMem(d.env(u.target), obj, captures[1..]).chunks;
      NestedRange(user, d.env(u.target), obj, all, Binding(chunks, extra));
    }
  }

  lemma {:induction false} FullCursor(d: Decoder, vars: seq<Variable>, k: nat, e: Event)
    requires Sent(e) && TailAt(d.env, e.specs, 0, vars, 0) && k <= |vars| && |e.specs| == MAX_FETCH_ARGS
    ensures KernelFetch.ValidRecipes(e.kernel) && CursorAt(d, vars, k, e) == MAX_FETCH_ARGS
    decreases k
  {
    hide TailAt, GroupAt, SameTable, RulesFor, ValueSpecs, RenderLeaves, AbiWordCount, KernelFetch.ValidRecipes, AllValues, CursorAfter,
         CursorAt, LeafOf, WordOf, PlannedValue;
    if k == 0 {
      CursorAtStart(d, vars, e);
    } else {
      FullCursor(d, vars, k - 1, e);
      CursorMoves(d, vars, k - 1, e);
      FullMoves(d, vars[k - 1], WordOf(vars, k - 1), e, MAX_FETCH_ARGS);
    }
  }

  lemma CursorAtStart(d: Decoder, vars: seq<Variable>, e: Event)
    requires KernelFetch.ValidRecipes(e.kernel) && |e.specs| <= MAX_FETCH_ARGS
    ensures CursorAt(d, vars, 0, e) == |e.specs|
  {
  }

  lemma FullMoves(d: Decoder, v: Variable, wi: nat, e: Event, extra: nat)
    requires AbiWordCount(v.typ) > 0 && KernelFetch.ValidRecipes(e.kernel) && |e.specs| <= MAX_FETCH_ARGS <= extra
    ensures CursorAfter(d, v, wi, e, extra) == extra
  {
    hide RenderLeaves, ValueSpecs, EventOf, AbiWordCount, ValueCaptures;
    ValueSpecsCount(d.env, v.typ, v.name, wi);
    var value := PlannedValue(d.env, v.typ, v.name);
    var leaves := ExecAll(e.ctx, e.mem, ValueSpecs(d.env, v.typ, v.name, wi));
    FullTakesNone(d, value, leaves[..value.wordCount], leaves[value.wordCount..], EventOf(e), extra, e.user);
  }

  // ---- a variable in zero registers takes and is owed nothing ----

  predicate AllAre(ctx: KernelFetch.PtRegs, wi: nat, n: nat, w: Word)
  {
    forall m | wi <= m < wi + n :: RegisterIs(ctx, m, w)
  }

  predicate RegisterIs(ctx: KernelFetch.PtRegs, m: nat, w: Word)
  {
    ctx(Reg(m)) == w
  }

  lemma ZeroTakesNone(d: Decoder, v: Variable, wi: nat, e: Event, extra: nat)
    requires AbiWordCount(v.typ) > 0 && KernelFetch.ValidRecipes(e.kernel) && |e.specs| <= MAX_FETCH_ARGS
    requires e.ctx(Reg(wi)) == ZERO_WORD
    ensures CursorAfter(d, v, wi, e, extra) == extra
  {
    hide EventOf, RenderValue, ConsumeReg, ScatteredImage, ValueSpecs, ApplyNested, ConsumeMem, Exec, ConcatLeaves;
    OnesWord();
    ValueSpecsCount(d.env, v.typ, v.name, wi);
    UnderlyingFacts(v.typ);
    var u := Underlying(v.typ);
    var leaves := ExecAll(e.ctx, e.mem, ValueSpecs(d.env, v.typ, v.name, wi));
    if u.Ptr? {
      FirstPointerWord(d.env, v, wi, e.ctx, e.mem);
      PointerLeaves(d, u.target, PlannedValue(d.env, v.typ, v.name), leaves[..1], leaves[1..], EventOf(e), extra, e.user);
    } else if u.Iface? {
      IfaceSpecs(d.env, v, wi);
      ZeroTypeWord(e.ctx, e.mem, v.name, u.nonEmpty, Reg(wi));
    }
  }

  lemma ZeroTypeWord(ctx: KernelFetch.PtRegs, mem: Memory, name: string, nonEmpty: bool, reg: string)
    requires ctx(reg) == ZERO_WORD
    ensures ReadUint(Exec(ctx, mem, TypeWordSpec(name, nonEmpty, reg)).data) == 0
  {
    OnesWord();
    KernelFetch.EmptyWord();
    var leaf := Exec(ctx, mem, TypeWordSpec(name, nonEmpty, reg));
    assert !nonEmpty ==> leaf.data[..8] == ZERO_WORD;
  }

  /** The leaves that look like type words hold this word. */
  ghost predicate TypedLeaves(ctx: KernelFetch.PtRegs, mem: Memory, specs: seq<ArgSpec>, w: nat)
  {
    forall s <- specs | IsTypeName(s.name) :: ReadUint(Exec(ctx, mem, s).data) == w
  }

  /** A register or the type word behind it reads as the register's own content. */
  predicate ReadsAs(mem: Memory, w: Word)
  {
    w == ZERO_WORD || (w == ONES && ReadUser(mem, X + 8, 8) == Some(ONES))
  }

  lemma WordReads(ctx: KernelFetch.PtRegs, mem: Memory, s: ArgSpec, w: Word)
    requires !s.LocSpec? && ctx(SpecReg(s)) == w && ReadsAs(mem, w)
    ensures ReadUint(Exec(ctx, mem, s).data) == LittleEndian(w)
  {
    OnesWord();
    if s.ItabSpec? {
      assert [Step(8, false)][1..] == [];
      assert Zeros(64)[..8] == ZERO_WORD;
      assert (X + 8) % ADDRESSES == X + 8;
    }
    assert Exec(ctx, mem, s).data[..8] == w;
  }

  lemma RegisterTyped(env: TypeEnv, v: Variable, wi: nat, ctx: KernelFetch.PtRegs, mem: Memory, w: Word)
    requires !Underlying(v.typ).Ptr? && AbiWordCount(v.typ) > 0 && wi + AbiWordCount(v.typ) <= |ABI_REGS|
    requires AllAre(ctx, wi, AbiWordCount(v.typ), w) && ReadsAs(mem, w)
    ensures TypedLeaves(ctx, mem, ValueSpecs(env, v.typ, v.name, wi), LittleEndian(w))
  {
    hide WordSpecs, RegBlobs, Exec, IsTypeName, AbiWordCount, ReadsAs, AllInAbi;
    UnderlyingFacts(v.typ);
    var u := Underlying(v.typ);
    var specs := WordSpecs(u, v.name, wi);
    WordSpecsCount(u, v.name, wi);
    WordsOnly(u, v.name, wi);
    WordSpecsInOrder(u, v.name, wi);
    WordRegsAll(specs);
    BlobsNotTyped(u, v.name, wi);
    forall s | s in ValueSpecs(env, v.typ, v.name, wi) && IsTypeName(s.name)
      ensures ReadUint(Exec(ctx, mem, s).data) == LittleEndian(w)
    {
      var j :| 0 <= j < |specs| && specs[j] == s;
      assert WordRegs(specs)[j] == SpecReg(s);
      assert RegRange(wi, AbiWordCount(u))[j] == Reg(wi + j);
      assert RegisterIs(ctx, wi + j, w);
      WordReads(ctx, mem, s, w);
    }
  }

  lemma ZeroTyped(env: TypeEnv, v: Variable, wi: nat, ctx: KernelFetch.PtRegs, mem: Memory)
    requires AbiWordCount(v.typ) > 0 && wi + AbiWordCount(v.typ) <= |ABI_REGS| && AllAre(ctx, wi, AbiWordCount(v.typ), ZERO_WORD)
    ensures TypedLeaves(ctx, mem, ValueSpecs(env, v.typ, v.name, wi), 0)
  {
    OnesWord();
    if Underlying(v.typ).Ptr? {
      UnderlyingFacts(v.typ);
      assert RegisterIs(ctx, wi, ZERO_WORD);
      ZeroPointerTyped(env, v, wi, ctx, mem);
    } else {
      RegisterTyped(env, v, wi, ctx, mem, ZERO_WORD);
    }
  }

  lemma ZeroPointerTyped(env: TypeEnv, v: Variable, wi: nat, ctx: KernelFetch.PtRegs, mem: Memory)
    requires Underlying(v.typ).Ptr? && ctx(Reg(wi)) == ZERO_WORD
    ensures TypedLeaves(ctx, mem, ValueSpecs(env, v.typ, v.name, wi), 0)
  {
    hide MemSpecs, IsTypeName;
    OnesWord();
    KernelFetch.EmptyWord();
    var id := Underlying(v.typ).target;
    var loc := MemLoc(Reg(wi), [], true);
    MemChecked(env(id), v.name, loc);
    MemSpecsReg(env(id), v.name, loc);
    forall s | s in ValueSpecs(env, v.typ, v.name, wi)
      ensures ReadUint(Exec(ctx, mem, s).data) == 0
    {
      if s.WordSpec? {
        assert Exec(ctx, mem, s).data[..8] == ZERO_WORD;
      }
    }
  }

  /** Every leaf of an object checks its base for nil. */
  lemma {:induction false} MemChecked(t: GoType, name: string, loc: MemLoc)
    ensures forall s <- MemSpecs(t, name, loc) :: s.LocSpec? && s.loc.nilCheck == loc.nilCheck
    decreases t
  {
    match t
    case Named(b) => MemChecked(b, name, loc);
    case Struct(_, fields, _) => FieldMemChecked(fields, name, loc);
    case _ =>
  }

  lemma {:induction false} FieldMemChecked(fields: seq<Field>, name: string, loc: MemLoc)
    ensures forall s <- FieldMemSpecs(fields, name, loc) :: s.LocSpec? && s.loc.nilCheck == loc.nilCheck
    decreases fields
  {
    if fields != [] {
      MemChecked(fields[0].typ, name + "." + fields[0].name, loc.Add(fields[0].offset));
      FieldMemChecked(fields[1..], name, loc);
    }
  }

  /** A rule's type word is a leaf of its own variable that looks like one. */
  lemma TypeSlotOf(env: TypeEnv, e: Event, off: nat, v: Variable, wi: nat, r: nat)
    requires Sent(e) && GroupAt(env, e.specs, off, v, wi) && off <= r < off + |ValueSpecs(env, v.typ, v.name, wi)|
    requires e.rules[r].ifaceData
    ensures var at := e.rules[r].typeIdx;
            && off <= at < off + |ValueSpecs(env, v.typ, v.name, wi)|
            && e.specs[at] in ValueSpecs(env, v.typ, v.name, wi) && IsTypeName(e.specs[at].name)
            && KernelFetch.LoadArgWord(Generic(e), at) == ReadUint(Exec(e.ctx, e.mem, e.specs[at]).data)
  {
    hide ValueSpecs, Stem, SameTable, DotFree, TypelessVar, Exec, IsTypeName, HasSuffix, TrimSuffix, Marked, KernelFetch.Uint8;
    RulesCount(e.specs, e.rules);
    MarkInside(env, e.specs, off, v, wi, r - off);
    var at := Marked(ToFetchArgs(e.specs), r).typeIndex;
    SmallIndex(at);
    GroupName(env, e.specs, off, v, wi, at - off);
    TypeNamed(TrimSuffix(e.specs[r].name, ".data"));
  }

  lemma ZeroOwesNone(env: TypeEnv, e: Event, off: nat, v: Variable, wi: nat)
    requires Sent(e) && GroupAt(env, e.specs, off, v, wi)
    requires TypedLeaves(e.ctx, e.mem, ValueSpecs(env, v.typ, v.name, wi), 0)
    ensures off + |ValueSpecs(env, v.typ, v.name, wi)| <= |e.rules|
    ensures OwedIn(e, off, off + |ValueSpecs(env, v.typ, v.name, wi)|) == []
  {
    hide ValueSpecs, GroupAt, SameTable, Exec, RulesFor, KernelFetch.LoadArgWord, OwedIn, IsTypeName;
    RulesCount(e.specs, e.rules);
    GroupBound(env, e.specs, off, v, wi);
    var n := |ValueSpecs(env, v.typ, v.name, wi)|;
    forall r | off <= r < off + n
      ensures !KernelFetch.HasRecipe(e.rules[r], Generic(e), e.kernel)
    {
      if e.rules[r].ifaceData { TypeSlotOf(env, e, off, v, wi, r); }
    }
    NothingOwed(e, off, off + n);
  }

  // ---- the interfaces of an unsettled variable ----

  /** Among the words of a value with an interface in it there are a type word and its data word. */
  lemma {:induction false} PairInWords(t: GoType, name: string, wi: nat) returns (p: nat, n: string)
    requires HasIface(t)
    ensures var specs := WordSpecs(t, name, wi);
            p + 1 < |specs| && specs[p].name == n + ".type" && specs[p + 1].name == n + ".data"
    decreases t
  {
    match t
    case Named(b) => p, n := PairInWords(b, name, wi);
    case Iface(_) => p, n := 0, name;
    case Struct(_, fields, _) => p, n := PairInFields(fields, name, wi);
  }

  lemma {:induction false} PairInFields(fields: seq<Field>, name: string, wi: nat) returns (p: nat, n: string)
    requires exists f <- fields :: HasIface(f.typ)
    ensures var specs := FieldWordSpecs(fields, name, wi);
            p + 1 < |specs| && specs[p].name == n + ".type" && specs[p + 1].name == n + ".data"
    decreases fields
  {
    hide WordSpecs, HasIface;
    var fieldName := name + "." + fields[0].name;
    var first := WordSpecs(fields[0].typ, fieldName, wi);
    if HasIface(fields[0].typ) {
      p, n := PairInWords(fields[0].typ, fieldName, wi);
    } else {
      p, n := PairInFields(fields[1..], name, Advance(wi, |first|));
      p := |first| + p;
    }
  }

  predicate AddsOnly(steps: seq<Step>)
  {
    forall s <- steps :: !s.deref
  }

  /** The last type word among an object's leaves, with the path to its interface. */
  lemma {:induction false} LastItab(t: GoType, name: string, loc: MemLoc) returns (p: nat, n: string, at: MemLoc)
    requires !NoItabs(t) && AddsOnly(loc.steps)
    ensures var specs := MemSpecs(t, name, loc);
            && p + 1 < |specs| && specs[p] == LocSpec(n + ".type", at.Deref(0).Add(8), 8) && specs[p + 1].name == n + ".data"
            && NoneTyped(specs[p + 1..])
    ensures AddsOnly(at.steps) && at.reg == loc.reg && at.nilCheck == loc.nilCheck
    decreases t
  {
    match t
    case Named(b) => p, n, at := LastItab(b, name, loc);
    case Iface(_) =>
      p, n, at := 0, name, loc;
      ItabSpecs(name, loc);
    case Struct(_, fields, _) => p, n, at := LastItabInFields(fields, name, loc);
  }

  lemma ItabSpecs(name: string, loc: MemLoc)
    ensures var specs := MemSpecs(Iface(true), name, loc);
            && |specs| == 3 && specs[0] == LocSpec(name + ".type", loc.Deref(0).Add(8), 8) && specs[1].name == name + ".data"
            && NoneTyped(specs[1..])
  {
    hide IsTypeName;
    LeafNotTyped(name);
    var rest := [LocSpec(name + ".data", loc.Add(8), 8), BlobAt(name + ".value", loc.Deref(8))];
    assert MemSpecs(Iface(true), name, loc)[1..] == rest;
  }

  lemma {:induction false} LastItabInFields(fields: seq<Field>, name: string, loc: MemLoc) returns (p: nat, n: string, at: MemLoc)
    requires (exists f <- fields :: !NoItabs(f.typ)) && AddsOnly(loc.steps)
    ensures var specs := FieldMemSpecs(fields, name, loc);
            && p + 1 < |specs| && specs[p] == LocSpec(n + ".type", at.Deref(0).Add(8), 8) && specs[p + 1].name == n + ".data"
            && NoneTyped(specs[p + 1..])
    ensures AddsOnly(at.steps) && at.reg == loc.reg && at.nilCheck == loc.nilCheck
    decreases fields
  {
    hide MemSpecs, NoItabs, IsTypeName;
    var fieldName, fieldLoc := name + "." + fields[0].name, loc.Add(fields[0].offset);
    var first, rest := MemSpecs(fields[0].typ, fieldName, fieldLoc), FieldMemSpecs(fields[1..], name, loc);
    if exists f <- fields[1..] :: !NoItabs(f.typ) {
      p, n, at := LastItabInFields(fields[1..], name, loc);
      assert (first + rest)[|first| + p + 1..] == rest[p + 1..];
      p := |first| + p;
    } else {
      p, n, at := LastItab(fields[0].typ, fieldName, fieldLoc);
      FieldMemNotTyped(fields[1..], name, loc);
      assert (first + rest)[p + 1..] == first[p + 1..] + rest;
    }
  }

  // ---- pages full of ones ----

  const X_PAGE: int := X - X % PAGE

  function OnesPage(page: int): Memory
  {
    map a: int | page <= a < page + PAGE && InPage(a, page) :: 1
  }

  predicate InPage(a: int, page: int)
  {
    page <= a < page + PAGE
  }

  /** One page at X, and perhaps another. */
  function OnesPages(other: Option<int>): Memory
  {
    if other.None? then OnesPage(X_PAGE) else OnesPage(X_PAGE) + OnesPage(other.value)
  }

  predicate IsPage(page: int)
  {
    LOW_PAGE <= page && page + PAGE <= ADDRESSES && page % PAGE == 0
  }

  lemma PagesAreReal(other: Option<int>)
    requires other.Some? ==> IsPage(other.value)
    ensures LowPageUnmapped(OnesPages(other)) && Paged(OnesPages(other))
  {
    var mem := OnesPages(other);
    forall a, b | 0 <= a <= b < ADDRESSES && a / PAGE == b / PAGE
      ensures Mapped(mem, a) == Mapped(mem, b)
    {
      SamePage(a, b, X_PAGE);
      if other.Some? { SamePage(a, b, other.value); }
    }
  }

  lemma SamePage(a: int, b: int, page: int)
    requires a / PAGE == b / PAGE && page % PAGE == 0
    ensures page <= a < page + PAGE <==> page <= b < page + PAGE
  {
  }

  lemma OnesRead(other: Option<int>, page: int, addr: nat)
    requires page == X_PAGE || other == Some(page)
    requires page <= addr && addr + 8 <= page + PAGE && page + PAGE <= ADDRESSES
    ensures ReadUser(OnesPages(other), addr, 8) == Some(ONES)
  {
    var mem := OnesPages(other);
    forall i | 0 <= i < 8
      ensures At(addr, i) in mem && mem[At(addr, i)] == 1
    {
      assert At(addr, i) == addr + i;
    }
    assert ReadUser(mem, addr, 8).value == ONES;
  }

  lemma OnesReadAs(other: Option<int>)
    ensures ReadsAs(OnesPages(other), ONES)
  {
    OnesRead(other, X_PAGE, X + 8);
  }

  /** The sum of the steps' offsets. */
  function Offset(steps: seq<Step>): int
  {
    if steps == [] then 0 else steps[0].offset + Offset(steps[1..])
  }

  /** A path of additions leads to the sum, in any memory. */
  lemma {:induction false} AddsWalk(mem: Memory, addr: nat, steps: seq<Step>)
    requires AddsOnly(steps) && addr < ADDRESSES
    ensures KernelFetch.Walk(mem, addr, steps) == Some((addr + Offset(steps)) % ADDRESSES)
    decreases |steps|
  {
    if steps != [] {
      assert !steps[0].deref;
      AddsWalk(mem, (addr + steps[0].offset) % ADDRESSES, steps[1..]);
      AddInner(addr + steps[0].offset, Offset(steps[1..]));
    }
  }

  lemma AddInner(a: int, b: int)
    ensures (a % ADDRESSES + b) % ADDRESSES == (a + b) % ADDRESSES
  {
    var q := a / ADDRESSES;
    assert a + b == a % ADDRESSES + b + q * ADDRESSES;
    SkipMultiple(a % ADDRESSES + b, q);
  }

  /** The type word of an interface with methods inside an object at `base`. */
  lemma ItabLeaf(ctx: KernelFetch.PtRegs, mem: Memory, name: string, at: MemLoc, base: nat)
    requires AddsOnly(at.steps) && LittleEndian(ctx(at.reg)) == base != 0 && ReadsAs(mem, ONES)
    requires ReadUser(mem, (base + Delta(at)) % ADDRESSES, 8) == Some(ONES)
    ensures ReadUint(Exec(ctx, mem, LocSpec(name, at.Deref(0).Add(8), 8)).data) == X
  {
    hide KernelFetch.Walk, KernelFetch.FetchAt, ReadUser, Delta, AddsOnly;
    OnesWord();
    WordBound(ctx(at.reg));
    var steps := at.Deref(0).Add(8).steps;
    ItabWalk(mem, at, base);
    WordFetched(mem, base, KernelFetch.Int16Steps(steps), X + 8, at.nilCheck);
  }

  /** The path of the type word's rule. */
  lemma ItabWalk(mem: Memory, at: MemLoc, base: nat)
    requires AddsOnly(at.steps) && base < ADDRESSES && ReadUser(mem, (base + Delta(at)) % ADDRESSES, 8) == Some(ONES)
    ensures KernelFetch.Walk(mem, base, KernelFetch.Int16Steps(at.Deref(0).Add(8).steps)) == Some(X + 8)
  {
    hide KernelFetch.Walk, ReadUser, Offset;
    var tail := [Step(0, true), Step(8, false)];
    var adds := KernelFetch.Int16Steps(at.steps);
    assert at.Deref(0).Add(8).steps == at.steps + tail;
    assert KernelFetch.Int16Steps(at.steps + tail) == adds + tail;
    AddsWalk(mem, base, adds);
    AddInner(Offset(adds), base);
    WalkAppend(mem, base, adds, tail);
    BehindItab(mem, (base + Delta(at)) % ADDRESSES);
  }

  /** How far behind the object's address the probe finds the interface. */
  function Delta(at: MemLoc): (delta: nat)
    ensures delta < ADDRESSES
  {
    Offset(KernelFetch.Int16Steps(at.steps)) % ADDRESSES
  }

  lemma BehindItab(mem: Memory, a: nat)
    requires ReadUser(mem, a, 8) == Some(ONES)
    ensures KernelFetch.Walk(mem, a, [Step(0, true), Step(8, false)]) == Some(X + 8)
  {
    OnesWord();
    var tail := [Step(0, true), Step(8, false)];
    assert tail[1..] == [Step(8, false)] && tail[1..][1..] == [];
    assert KernelFetch.Walk(mem, X, [Step(8, false)]) == Some(X + 8);
  }

  lemma WordFetched(mem: Memory, base: nat, steps: seq<Step>, addr: nat, nilCheck: bool)
    requires base != 0 && KernelFetch.Walk(mem, base, steps) == Some(addr) && ReadUser(mem, addr, 8) == Some(ONES)
    ensures ReadUint(KernelFetch.FetchAt(mem, base, steps, 8, nilCheck).data) == X
  {
    hide KernelFetch.Walk, ReadUser;
    OnesWord();
    assert KernelFetch.FetchAt(mem, base, steps, 8, nilCheck).data[..8] == ONES;
  }

  // ---- what the holder of an interface is owed and takes ----

  const ONE_RULE: RecipeTable := map[X := [RelRule(AUTO_STRING_SIZE, [Step(0, true)])]]
  const ONE_KERNEL_RULE: KernelFetch.KernelRecipes :=
    map[X := [KernelFetch.KernelRelRule(AUTO_STRING_SIZE, 1, [0, 0, 0, 0, 0, 0, 0, 0],
                                        [true, false, false, false, false, false, false, false])]]

  lemma OneRuleTables()
    ensures SameTable(ONE_RULE, ONE_KERNEL_RULE)
  {
    assert KernelFetch.Int16Step(Step(0, true)) == Step(0, true);
  }

  /** The probe runs with that one recipe. */
  ghost predicate OneRecipe(e: Event)
  {
    Sent(e) && e.user == ONE_RULE && e.kernel == ONE_KERNEL_RULE
  }

  lemma PairMarked(env: TypeEnv, e: Event, off: nat, v: Variable, wi: nat, p: nat, n: string)
    requires Sent(e) && GroupAt(env, e.specs, off, v, wi) && p + 1 < |ValueSpecs(env, v.typ, v.name, wi)|
    requires var group := ValueSpecs(env, v.typ, v.name, wi); group[p].name == n + ".type" && group[p + 1].name == n + ".data"
    ensures off + p + 1 < |e.rules| && e.rules[off + p + 1].ifaceData
    ensures NoneTyped(ValueSpecs(env, v.typ, v.name, wi)[p + 1..]) ==> e.rules[off + p + 1].typeIdx == off + p
  {
    hide ValueSpecs, Stem, SameTable, DotFree, TypelessVar, IsTypeName, HasSuffix, TrimSuffix, TypeSlot, ToFetchArg, KernelFetch.Uint8;
    RulesCount(e.specs, e.rules);
    var args, group := ToFetchArgs(e.specs), ValueSpecs(env, v.typ, v.name, wi);
    GroupName(env, e.specs, off, v, wi, p);
    GroupName(env, e.specs, off, v, wi, p + 1);
    PlainArg(e.specs[off + p]);
    PlainArg(e.specs[off + p + 1]);
    SuffixName(n + ".data", n, ".data");
    TypeSlotFinds(args, n);
    if NoneTyped(group[p + 1..]) {
      forall m | off + p < m < |args|
        ensures args[m].name != n + ".type"
      {
        LaterNotTyped(env, e.specs, off, v, wi, p, n, m);
      }
      TypeSlotIs(args, n, off + p);
      SmallIndex(off + p);
    }
  }

  lemma LaterNotTyped(env: TypeEnv, specs: seq<ArgSpec>, off: nat, v: Variable, wi: nat, p: nat, n: string, m: nat)
    requires GroupAt(env, specs, off, v, wi) && p < |ValueSpecs(env, v.typ, v.name, wi)| && off + p < m < |specs|
    requires ValueSpecs(env, v.typ, v.name, wi)[p].name == n + ".type" && NoneTyped(ValueSpecs(env, v.typ, v.name, wi)[p + 1..])
    ensures ToFetchArgs(specs)[m].name != n + ".type"
  {
    hide ValueSpecs, Stem, DotFree, TypelessVar, IsTypeName, ToFetchArg;
    var group := ValueSpecs(env, v.typ, v.name, wi);
    PlainArg(specs[m]);
    TypeNamed(n);
    GroupName(env, specs, off, v, wi, p);
    if m < off + |group| {
      GroupName(env, specs, off, v, wi, m - off);
      assert group[p + 1..][m - off - p - 1] == group[m - off];
    }
  }

  /** One rule with a known recipe owes one leaf. */
  lemma OwedOne(e: Event, from: nat, r: nat, to: nat)
    requires OneRecipe(e) && from <= r < to <= |e.rules|
    requires e.rules[r].ifaceData && e.rules[r].typeIdx < 8 && KernelFetch.LoadArgWord(Generic(e), e.rules[r].typeIdx) == X
    ensures |OwedIn(e, from, to)| >= 1
  {
    hide KernelFetch.LoadArgWord, RulesFor, SameTable;
    OwedJoin(e, from, r, to);
    OwedJoin(e, r, r + 1, to);
  }

  /** The registers of one variable hold one word and the first register of another X, all others zero. */
  function FilledIn(regs: seq<string>, w: Word, reg: string): KernelFetch.PtRegs
  {
    r => if r in regs then w else if r == reg then ONES else ZERO_WORD
  }

  /** An interface in a register struct: owed a leaf the decoder does not take. */
  lemma StructOwed(env: TypeEnv, e: Event, off: nat, v: Variable, wi: nat)
    requires OneRecipe(e) && GroupAt(env, e.specs, off, v, wi) && Underlying(v.typ).Struct? && HasIface(Underlying(v.typ))
    requires AbiWordCount(v.typ) > 0 && wi + AbiWordCount(v.typ) <= |ABI_REGS| && AllAre(e.ctx, wi, AbiWordCount(v.typ), ONES)
    requires ReadsAs(e.mem, ONES)
    ensures off + |ValueSpecs(env, v.typ, v.name, wi)| <= |e.rules|
    ensures |OwedIn(e, off, off + |ValueSpecs(env, v.typ, v.name, wi)|)| >= 1
  {
    hide ValueSpecs, Exec, AbiWordCount, ReadsAs, GroupAt, HasIface, AllAre, OwedIn, TypedLeaves, OneRecipe;
    OnesWord();
    var p, n := PairInGroup(env, v, wi);
    RegisterTyped(env, v, wi, e.ctx, e.mem, ONES);
    PairOwed(env, e, off, v, wi, p, n);
  }

  /** A data word whose type word is X is owed a leaf. */
  lemma PairOwed(env: TypeEnv, e: Event, off: nat, v: Variable, wi: nat, p: nat, n: string)
    requires OneRecipe(e) && GroupAt(env, e.specs, off, v, wi) && p + 1 < |ValueSpecs(env, v.typ, v.name, wi)|
    requires var group := ValueSpecs(env, v.typ, v.name, wi); group[p].name == n + ".type" && group[p + 1].name == n + ".data"
    requires TypedLeaves(e.ctx, e.mem, ValueSpecs(env, v.typ, v.name, wi), X)
    ensures off + |ValueSpecs(env, v.typ, v.name, wi)| <= |e.rules|
    ensures |OwedIn(e, off, off + |ValueSpecs(env, v.typ, v.name, wi)|)| >= 1
  {
    hide ValueSpecs, Exec, IsTypeName, GroupAt, RulesFor, Sent, KernelFetch.LoadArgWord, OwedIn, TypedLeaves, OneRecipe;
    var group, r := ValueSpecs(env, v.typ, v.name, wi), off + p + 1;
    RecipeSent(e);
    SentCount(e);
    GroupBound(env, e.specs, off, v, wi);
    PairMarked(env, e, off, v, wi, p, n);
    TypeSlotOf(env, e, off, v, wi, r);
    TypedLeaf(e.ctx, e.mem, group, X, e.specs[e.rules[r].typeIdx]);
    OwedOne(e, off, r, off + |group|);
  }

  lemma SentCount(e: Event)
    requires Sent(e)
    ensures |e.rules| == |e.specs| <= MAX_FETCH_ARGS && KernelFetch.ValidRecipes(e.kernel)
  {
    hide SameTable;
    RulesCount(e.specs, e.rules);
  }

  lemma TypedLeaf(ctx: KernelFetch.PtRegs, mem: Memory, specs: seq<ArgSpec>, w: nat, s: ArgSpec)
    requires TypedLeaves(ctx, mem, specs, w) && s in specs && IsTypeName(s.name)
    ensures ReadUint(Exec(ctx, mem, s).data) == w
  {
  }

  lemma RecipeSent(e: Event)
    requires OneRecipe(e)
    ensures Sent(e)
  {
  }

  lemma PairInGroup(env: TypeEnv, v: Variable, wi: nat) returns (p: nat, n: string)
    requires Underlying(v.typ).Struct? && HasIface(Underlying(v.typ))
    ensures var group := ValueSpecs(env, v.typ, v.name, wi);
            p + 1 < |group| && group[p].name == n + ".type" && group[p + 1].name == n + ".data"
  {
    hide WordSpecs, RegBlobs, HasIface;
    p, n := PairInWords(Underlying(v.typ), v.name, wi);
  }

  lemma StructTakesNone(d: Decoder, v: Variable, wi: nat, e: Event, extra: nat)
    requires AbiWordCount(v.typ) > 0 && KernelFetch.ValidRecipes(e.kernel) && |e.specs| <= MAX_FETCH_ARGS
    requires Underlying(v.typ).Struct?
    ensures CursorAfter(d, v, wi, e, extra) == extra
  {
    hide EventOf, RenderValue, ConsumeReg, ScatteredImage, ValueSpecs, ConcatLeaves;
    ValueSpecsCount(d.env, v.typ, v.name, wi);
  }

  /** A pointed-to object with an interface with methods in it. */
  predicate HoldsItab(env: TypeEnv, t: GoType)
  {
    Underlying(t).Ptr? && IsCapturedStruct(env(Underlying(t).target)) && !NoItabs(env(Underlying(t).target))
  }

  lemma ObjectGroup(env: TypeEnv, v: Variable, wi: nat)
    requires Underlying(v.typ).Ptr? && IsCapturedStruct(env(Underlying(v.typ).target))
    ensures var group := ValueSpecs(env, v.typ, v.name, wi);
            var mem := MemSpecs(env(Underlying(v.typ).target), v.name, MemLoc(Reg(wi), [], true));
            |group| == 2 + |mem| && group[2..] == mem
  {
    hide MemSpecs;
    var mem := MemSpecs(env(Underlying(v.typ).target), v.name, MemLoc(Reg(wi), [], true));
    var two := [WordSpec(v.name, 8, Reg(wi)), BlobAt(v.name + ".obj", MemLoc(Reg(wi), [], true))];
    assert ValueSpecs(env, v.typ, v.name, wi) == two + mem;
  }

  /** The last type word among the variable's leaves, and the path to its interface. */
  ghost predicate ItabAt(env: TypeEnv, v: Variable, wi: nat, p: nat, n: string, at: MemLoc)
  {
    var group := ValueSpecs(env, v.typ, v.name, wi);
    && p + 1 < |group| && group[p] == LocSpec(n + ".type", at.Deref(0).Add(8), 8) && group[p + 1].name == n + ".data"
    && NoneTyped(group[p + 1..]) && AddsOnly(at.steps) && at.reg == Reg(wi)
  }

  lemma ItabPlace(env: TypeEnv, v: Variable, wi: nat) returns (p: nat, n: string, at: MemLoc)
    requires HoldsItab(env, v.typ)
    ensures ItabAt(env, v, wi, p, n, at)
  {
    hide ValueSpecs, MemSpecs, NoItabs, IsTypeName;
    var id := Underlying(v.typ).target;
    var group := ValueSpecs(env, v.typ, v.name, wi);
    ObjectGroup(env, v, wi);
    p, n, at := LastItab(env(id), v.name, MemLoc(Reg(wi), [], true));
    assert group[2..][p + 1..] == group[2 + p + 1..];
    p := 2 + p;
  }

  lemma ItabOwed(env: TypeEnv, e: Event, off: nat, v: Variable, wi: nat, p: nat, n: string, at: MemLoc, base: nat)
    requires OneRecipe(e) && GroupAt(env, e.specs, off, v, wi) && ItabAt(env, v, wi, p, n, at)
    requires LittleEndian(e.ctx(Reg(wi))) == base != 0 && ReadsAs(e.mem, ONES)
    requires ReadUser(e.mem, (base + Delta(at)) % ADDRESSES, 8) == Some(ONES)
    ensures off + |ValueSpecs(env, v.typ, v.name, wi)| <= |e.rules|
    ensures |OwedIn(e, off, off + |ValueSpecs(env, v.typ, v.name, wi)|)| >= 1
  {
    hide ValueSpecs, Exec, IsTypeName, ReadsAs, GroupAt, RulesFor, SameTable, KernelFetch.LoadArgWord, OwedIn, NoneTyped, AddsOnly,
         KernelFetch.Walk, ReadUser, Delta;
    RulesCount(e.specs, e.rules);
    GroupBound(env, e.specs, off, v, wi);
    PairMarked(env, e, off, v, wi, p, n);
    ItabLeaf(e.ctx, e.mem, n + ".type", at, base);
    GroupName(env, e.specs, off, v, wi, p);
    TypeSlotOf(env, e, off, v, wi, off + p + 1);
    OwedOne(e, off, off + p + 1, off + |ValueSpecs(env, v.typ, v.name, wi)|);
  }

  /** When the copy of the object fails the decoder takes nothing. */
  lemma UncopiedTakesNone(d: Decoder, v: Variable, wi: nat, e: Event, extra: nat, base: nat)
    requires AbiWordCount(v.typ) > 0 && KernelFetch.ValidRecipes(e.kernel) && |e.specs| <= MAX_FETCH_ARGS
    requires Underlying(v.typ).Ptr? && IsCapturedStruct(d.env(Underlying(v.typ).target))
    requires LittleEndian(e.ctx(Reg(wi))) == base != 0 && !Readable(e.mem, base, AUTO_STRING_SIZE)
    ensures CursorAfter(d, v, wi, e, extra) == extra
  {
    hide EventOf, RenderValue, MemSpecs, ApplyNested, ConsumeMem, Readable, RenderLeaves, ValueSpecs, Exec;
    ObjectBlob(d, v, wi, e, base);
    UnderlyingFacts(v.typ);
    ValueSpecsCount(d.env, v.typ, v.name, wi);
    var leaves := ExecAll(e.ctx, e.mem, ValueSpecs(d.env, v.typ, v.name, wi));
    FirstPointerWord(d.env, v, wi, e.ctx, e.mem);
    PointerLeaves(d, Underlying(v.typ).target, PlannedValue(d.env, v.typ, v.name), leaves[..1], leaves[1..], EventOf(e), extra, e.user);
  }

  /** The object's copy behind the pointer. */
  lemma ObjectBlob(d: Decoder, v: Variable, wi: nat, e: Event, base: nat)
    requires Underlying(v.typ).Ptr? && IsCapturedStruct(d.env(Underlying(v.typ).target)) && LittleEndian(e.ctx(Reg(wi))) == base != 0
    ensures var leaves := ExecAll(e.ctx, e.mem, ValueSpecs(d.env, v.typ, v.name, wi));
            && |leaves| >= 2 && !leaves[1].isNil
            && leaves[1].readError == !Readable(e.mem, base, AUTO_STRING_SIZE)
            && (!leaves[1].readError ==> Some(leaves[1].data) == ReadUser(e.mem, base, AUTO_STRING_SIZE))
  {
    hide MemSpecs;
    WordBound(e.ctx(Reg(wi)));
    var steps := KernelFetch.Int16Steps([Step(0, false)]);
    assert steps[1..] == [] && steps[0] == Step(0, false);
    assert KernelFetch.Walk(e.mem, base, steps) == KernelFetch.Walk(e.mem, base % ADDRESSES, []);
    var blob := BlobAt(v.name + ".obj", MemLoc(Reg(wi), [], true));
    assert ValueSpecs(d.env, v.typ, v.name, wi)[1] == blob;
    var leaf := Exec(e.ctx, e.mem, blob);
    if Readable(e.mem, base, AUTO_STRING_SIZE) {
      var b := ReadUser(e.mem, base, AUTO_STRING_SIZE).value;
      assert b + Zeros(0) == b;
    }
  }

  /** An interface without methods in a pointed-to object: not owed, but the decoder takes. */
  predicate HoldsEmpty(env: TypeEnv, t: GoType)
  {
    && Underlying(t).Ptr? && IsCapturedStruct(env(Underlying(t).target))
    && NoItabs(env(Underlying(t).target)) && EmptyWithin(env(Underlying(t).target), AUTO_STRING_SIZE)
  }

  predicate Ones(b: Bytes)
  {
    forall i | 0 <= i < |b| :: b[i] == 1
  }

  lemma OnesFirst(b: Bytes)
    requires Ones(b) && |b| >= 8
    ensures Snapshot.FirstWord(b) == X
  {
    OnesWord();
    assert b[..8] == ONES;
  }

  lemma {:induction false} NestedTakes(t: GoType, mem: Bytes, all: seq<LeafData>, b: Binding)
    requires Ones(mem) && EmptyWithin(t, |mem|) && b.extra < |all|
    ensures ApplyNested(ONE_RULE, t, mem, all, b).extra > b.extra
    decreases t
  {
    match t
    case Named(u) => NestedTakes(u, mem, all, b);
    case Iface(_) =>
      OnesFirst(mem);
      BindCount(ONE_RULE[X], SecondWord(mem), all, b);
    case Struct(_, fields, _) => NestedFieldsTake(fields, mem, all, b);
  }

  lemma {:induction false} NestedFieldsTake(fields: seq<Field>, mem: Bytes, all: seq<LeafData>, b: Binding)
    requires Ones(mem) && (exists f <- fields :: EmptyWithin(f.typ, Behind(|mem|, f.offset))) && b.extra < |all|
    ensures ApplyNestedFields(ONE_RULE, fields, mem, all, b).extra > b.extra
    decreases fields
  {
    hide ApplyNested, EmptyWithin;
    var own := FieldMem(mem, fields[0].offset);
    assert |own| == Behind(|mem|, fields[0].offset) && Ones(own);
    var next := ApplyNested(ONE_RULE, fields[0].typ, own, all, b);
    NestedRange(ONE_RULE, fields[0].typ, own, all, b);
    NestedFieldsRange(ONE_RULE, fields[1..], mem, all, next);
    if EmptyWithin(fields[0].typ, Behind(|mem|, fields[0].offset)) {
      NestedTakes(fields[0].typ, own, all, b);
    } else if next.extra == b.extra {
      NestedFieldsTake(fields[1..], mem, all, next);
    }
  }

  lemma EmptyTakes(d: Decoder, v: Variable, wi: nat, e: Event, extra: nat)
    requires AbiWordCount(v.typ) > 0 && OneRecipe(e) && KernelFetch.ValidRecipes(e.kernel) && |e.specs| <= MAX_FETCH_ARGS
    requires HoldsEmpty(d.env, v.typ) && e.ctx(Reg(wi)) == ONES && e.mem == OnesPages(None) && extra < |EventOf(e)|
    ensures CursorAfter(d, v, wi, e, extra) > extra
  {
    hide EventOf, RenderValue, MemSpecs, ApplyNested, ConsumeMem, Readable, RenderLeaves, ValueSpecs, Exec, EmptyWithin, Sent;
    OnesWord();
    ObjectBlob(d, v, wi, e, X);
    OnesObject();
    UnderlyingFacts(v.typ);
    ValueSpecsCount(d.env, v.typ, v.name, wi);
    var id := Underlying(v.typ).target;
    var leaves, all := ExecAll(e.ctx, e.mem, ValueSpecs(d.env, v.typ, v.name, wi)), EventOf(e);
    FirstPointerWord(d.env, v, wi, e.ctx, e.mem);
    PointerLeaves(d, id, PlannedValue(d.env, v.typ, v.name), leaves[..1], leaves[1..], all, extra, e.user);
    var captures := leaves[1..];
    var obj := captures[0].data;
    var chunks := Put(X, captures[0]) + ConsumeMem(d.env(id), obj, captures[1..]).chunks;
    NestedTakes(d.env(id), obj, all, Binding(chunks, extra));
  }

  lemma OnesObject()
    ensures var mem := OnesPages(None);
            Readable(mem, X, AUTO_STRING_SIZE) && Ones(ReadUser(mem, X, AUTO_STRING_SIZE).value)
  {
    var mem := OnesPages(None);
    forall i | 0 <= i < AUTO_STRING_SIZE
      ensures At(X, i) in mem && mem[At(X, i)] == 1
    {
    }
  }

  lemma EmptyOwesNone(env: TypeEnv, e: Event, off: nat, v: Variable, wi: nat)
    requires Sent(e) && GroupAt(env, e.specs, off, v, wi) && HoldsEmpty(env, v.typ)
    ensures off + |ValueSpecs(env, v.typ, v.name, wi)| <= |e.rules|
    ensures OwedIn(e, off, off + |ValueSpecs(env, v.typ, v.name, wi)|) == []
  {
    hide MemSpecs, Exec, IsTypeName, Stem, SameTable, TypelessVar, RulesFor, DotFree, EmptyWithin, NoItabs;
    DotFreeNotTyped(v.name);
    LeafNotTyped(v.name);
    MemNotTyped(env(Underlying(v.typ).target), v.name, MemLoc(Reg(wi), [], true));
    ZeroOwesNone(env, e, off, v, wi);
  }

  // ---- the answer ----

  /** Up to the holder nothing is owed or taken, and after it nothing more: the other variables'
   *  registers are zero. */
  lemma {:induction false} HolderMoves(d: Decoder, vars: seq<Variable>, j: nat, m: nat, e: Event)
    requires Sent(e) && TailAt(d.env, e.specs, 0, vars, 0) && j < |vars| && m <= |vars|
    requires forall x | 0 <= x < m && x != j :: AllAre(e.ctx, WordOf(vars, x), AbiWordCount(vars[x].typ), ZERO_WORD)
    ensures KernelFetch.ValidRecipes(e.kernel) && |e.specs| == |e.rules| <= MAX_FETCH_ARGS && LeafOf(d.env, vars, m) <= |e.rules|
    ensures m <= j ==> CursorAt(d, vars, m, e) == |e.specs| && OwedIn(e, 0, LeafOf(d.env, vars, m)) == []
    ensures m > j ==>
              && LeafOf(d.env, vars, j) <= LeafOf(d.env, vars, j + 1) <= |e.rules| && AbiWordCount(vars[j].typ) > 0
              && CursorAt(d, vars, m, e) == CursorAfter(d, vars[j], WordOf(vars, j), e, |e.specs|)
              && OwedIn(e, 0, LeafOf(d.env, vars, m)) == OwedIn(e, LeafOf(d.env, vars, j), LeafOf(d.env, vars, j + 1))
    decreases m
  {
    hide TailAt, GroupAt, SameTable, RulesFor, ValueSpecs, AbiWordCount, KernelFetch.ValidRecipes, CursorAfter, PlannedValue,
         CursorAt, LeafOf, WordOf, AllAre, OwedIn, TypedLeaves;
    RulesCount(e.specs, e.rules);
    SameTableValidKernel(e);
    if m == 0 {
      CursorAtStart(d, vars, e);
      OwedNothingYet(e);
      FirstLeaf(d.env, vars);
    } else {
      HolderMoves(d, vars, j, m - 1, e);
      CursorMoves(d, vars, m - 1, e);
      var v, wi, off, next := vars[m - 1], WordOf(vars, m - 1), LeafOf(d.env, vars, m - 1), LeafOf(d.env, vars, m);
      OwedJoin(e, 0, off, next);
      if m - 1 != j {
        ZeroRegister(e.ctx, wi, AbiWordCount(v.typ));
        ZeroTakesNone(d, v, wi, e, CursorAt(d, vars, m - 1, e));
        ZeroTyped(d.env, v, wi, e.ctx, e.mem);
        ZeroOwesNone(d.env, e, off, v, wi);
      }
    }
  }

  lemma SameTableValidKernel(e: Event)
    requires Sent(e)
    ensures KernelFetch.ValidRecipes(e.kernel)
  {
  }

  lemma FirstLeaf(env: TypeEnv, vars: seq<Variable>)
    ensures LeafOf(env, vars, 0) == 0
  {
  }

  lemma ZeroRegister(ctx: KernelFetch.PtRegs, wi: nat, n: nat)
    requires n > 0 && AllAre(ctx, wi, n, ZERO_WORD)
    ensures ctx(Reg(wi)) == ZERO_WORD
  {
    assert RegisterIs(ctx, wi, ZERO_WORD);
  }

  /** The k-th variable, an interface whose type word is X, is owed a leaf. */
  lemma HeadOwed(d: Decoder, vars: seq<Variable>, k: nat, e: Event)
    requires OneRecipe(e) && TailAt(d.env, e.specs, 0, vars, 0) && k < |vars| && Underlying(vars[k].typ).Iface?
    requires e.ctx(Reg(WordOf(vars, k))) == ONES && ReadsAs(e.mem, ONES)
    ensures |e.specs| == |e.rules| <= MAX_FETCH_ARGS && KernelFetch.ValidRecipes(e.kernel)
    ensures |e.specs| < MAX_FETCH_ARGS ==> |EventOf(e)| > |e.specs|
  {
    hide TailAt, GroupAt, SameTable, RulesFor, ValueSpecs, AbiWordCount, PlannedValue, CursorAfter,
         CursorAt, LeafOf, WordOf, OwedIn, Exec;
    RulesCount(e.specs, e.rules);
    CursorMoves(d, vars, k, e);
    var v, wi, off := vars[k], WordOf(vars, k), LeafOf(d.env, vars, k);
    IfaceIsOrderly(d.env, v.typ);
    GroupOwed(d.env, e, off, v, wi);
    IfaceOwedOne(d.env, e, off, v, wi);
    var n := |ValueSpecs(d.env, v.typ, v.name, wi)|;
    OwedJoin(e, 0, off, |e.rules|);
    OwedJoin(e, off, off + n, |e.rules|);
  }

  lemma IfaceOwedOne(env: TypeEnv, e: Event, off: nat, v: Variable, wi: nat)
    requires OneRecipe(e) && GroupAt(env, e.specs, off, v, wi) && Underlying(v.typ).Iface?
    requires e.ctx(Reg(wi)) == ONES && ReadsAs(e.mem, ONES)
    ensures |OwnOwed(e, off, v.typ)| == 1
  {
    hide GroupAt, SameTable, RulesFor, ValueSpecs, Exec, ReadsAs;
    OnesWord();
    IfaceSpecs(env, v, wi);
    GroupBound(env, e.specs, off, v, wi);
    SameOwed(env, e, off, v, wi);
    var spec := ValueSpecs(env, v.typ, v.name, wi)[0];
    WordReads(e.ctx, e.mem, spec, ONES);
  }

  /** The three ways in which a variable is not orderly. */
  lemma NotOrderly(env: TypeEnv, t: GoType)
    requires !Orderly(env, t)
    ensures (Underlying(t).Struct? && HasIface(Underlying(t))) || HoldsItab(env, t) || HoldsEmpty(env, t)
  {
  }

  /** Where the witness puts the page of the itab's word, the word itself and the object, which lies
   *  `delta` bytes before the word: never with all of its first 64 bytes in a page. */
  function ItabPage(delta: nat): int
  {
    var first := 0x100_0000_0000;
    if AtEdge(delta) then first
    else
      var base := (first - delta) % ADDRESSES;
      if base == 0 || X_PAGE <= base < X_PAGE + PAGE then 2 * first else first
  }

  predicate AtEdge(delta: nat)
  {
    delta == 0 || delta > ADDRESSES - PAGE
  }

  function ItabWord(delta: nat): nat
  {
    if AtEdge(delta) then ItabPage(delta) + PAGE - 8 else ItabPage(delta)
  }

  function ObjectBase(delta: nat): nat
  {
    (ItabWord(delta) - delta) % ADDRESSES
  }

  lemma ObjectUncopied(delta: nat)
    requires delta < ADDRESSES
    ensures IsPage(ItabPage(delta)) && 0 < ObjectBase(delta) < ADDRESSES
    ensures (ObjectBase(delta) + delta) % ADDRESSES == ItabWord(delta)
    ensures var mem := OnesPages(Some(ItabPage(delta)));
            ReadUser(mem, ItabWord(delta), 8) == Some(ONES) && !Readable(mem, ObjectBase(delta), AUTO_STRING_SIZE)
  {
    hide ItabWord, ReadUser;
    var page, word, base := ItabPage(delta), ItabWord(delta), ObjectBase(delta);
    WordInPage(delta);
    AddInner(word - delta, delta);
    OnesRead(Some(page), page, word);
    BaseOutside(delta);
    RunsOut(page, base);
  }

  lemma WordInPage(delta: nat)
    ensures IsPage(ItabPage(delta)) && ItabPage(delta) < 0x400_0000_0000
    ensures ItabPage(delta) <= ItabWord(delta) && ItabWord(delta) + 8 <= ItabPage(delta) + PAGE
  {
  }

  /** Outside the two pages, or too near the end of the second, 64 bytes cannot be read. */
  lemma RunsOut(page: int, base: nat)
    requires IsPage(page) && page < 0x400_0000_0000 && base < ADDRESSES && !(X_PAGE <= base < X_PAGE + PAGE)
    requires page <= base < page + PAGE ==> page + PAGE - base < AUTO_STRING_SIZE
    ensures !Readable(OnesPages(Some(page)), base, AUTO_STRING_SIZE)
  {
    var i := if page <= base < page + PAGE then page + PAGE - base else 0;
    assert At(base, i) == base + i && base + i !in OnesPages(Some(page));
  }

  lemma BaseOutside(delta: nat)
    requires delta < ADDRESSES
    ensures var page, base := ItabPage(delta), ObjectBase(delta);
            && 0 < base && !(X_PAGE <= base < X_PAGE + PAGE)
            && (page <= base < page + PAGE ==> page + PAGE - base < AUTO_STRING_SIZE)
  {
    var page, word, base := ItabPage(delta), ItabWord(delta), ObjectBase(delta);
    if delta > 0 {
      assert word - delta >= 0 ==> base == word - delta;
      assert word - delta < 0 ==> base == word - delta + ADDRESSES;
    }
  }

  /** What the holder's registers hold. */
  function WitnessWord(env: TypeEnv, t: GoType, delta: nat): Word
  {
    if HoldsItab(env, t) then PutUint64(ObjectBase(delta)) else ONES
  }

  /** A memory in which the holder's leaves and the decoder's cursor fall apart. */
  function WitnessMemory(env: TypeEnv, t: GoType, delta: nat): Memory
  {
    OnesPages(if HoldsItab(env, t) then Some(ItabPage(delta)) else None)
  }

  lemma WitnessReal(env: TypeEnv, t: GoType, delta: nat)
    requires delta < ADDRESSES
    ensures var mem := WitnessMemory(env, t, delta);
            LowPageUnmapped(mem) && Paged(mem) && ReadsAs(mem, ONES)
  {
    hide ReadsAs, OnesPages, HoldsItab, Paged, LowPageUnmapped;
    ObjectUncopied(delta);
    PagesAreReal(None);
    PagesAreReal(Some(ItabPage(delta)));
    OnesReadAs(None);
    OnesReadAs(Some(ItabPage(delta)));
  }

  /** In that memory the holder is owed a leaf and takes none, or takes one and is owed none. */
  lemma HolderFallsApart(d: Decoder, e: Event, off: nat, v: Variable, wi: nat, p: nat, n: string, at: MemLoc)
    requires OneRecipe(e) && GroupAt(d.env, e.specs, off, v, wi) && !Orderly(d.env, v.typ) && |e.specs| <= MAX_FETCH_ARGS
    requires AbiWordCount(v.typ) > 0 && wi + AbiWordCount(v.typ) <= |ABI_REGS|
    requires AllAre(e.ctx, wi, AbiWordCount(v.typ), WitnessWord(d.env, v.typ, Delta(at)))
    requires e.mem == WitnessMemory(d.env, v.typ, Delta(at))
    requires HoldsItab(d.env, v.typ) ==> ItabAt(d.env, v, wi, p, n, at)
    ensures KernelFetch.ValidRecipes(e.kernel) && off + |ValueSpecs(d.env, v.typ, v.name, wi)| <= |e.rules|
    ensures var owed, extra := |OwedIn(e, off, off + |ValueSpecs(d.env, v.typ, v.name, wi)|)|, |e.specs|;
            || (owed >= 1 && CursorAfter(d, v, wi, e, extra) == extra)
            || (owed == 0 && (extra < |EventOf(e)| ==> CursorAfter(d, v, wi, e, extra) > extra))
  {
    hide GroupAt, ValueSpecs, Orderly, AbiWordCount, CursorAfter, OwedIn, EventOf, RulesFor, SameTable, HasIface, EmptyWithin, NoItabs,
         Readable, ReadUser, ReadsAs, OnesPages, KernelFetch.ValidRecipes, ItabAt, Delta, ObjectBase, ItabPage, ItabWord, Paged, LowPageUnmapped;
    var extra, delta := |e.specs|, Delta(at);
    SameTableValidKernel(e);
    NotOrderly(d.env, v.typ);
    assert RegisterIs(e.ctx, wi, WitnessWord(d.env, v.typ, delta));
    WitnessReal(d.env, v.typ, delta);
    if Underlying(v.typ).Struct? {
      StructOwed(d.env, e, off, v, wi);
      StructTakesNone(d, v, wi, e, extra);
    } else if HoldsItab(d.env, v.typ) {
      ObjectUncopied(delta);
      PutValue(ObjectBase(delta));
      ItabOwed(d.env, e, off, v, wi, p, n, at, ObjectBase(delta));
      UncopiedTakesNone(d, v, wi, e, extra, ObjectBase(delta));
    } else {
      EmptyOwesNone(d.env, e, off, v, wi);
      if extra < |EventOf(e)| { EmptyTakes(d, v, wi, e, extra); }
    }
  }

  lemma PlaceBound(env: TypeEnv, specs: seq<ArgSpec>, vars: seq<Variable>, k: nat)
    requires TailAt(env, specs, 0, vars, 0) && k < |vars| && |specs| <= MAX_FETCH_ARGS
    ensures AbiWordCount(vars[k].typ) > 0 && WordOf(vars, k) + AbiWordCount(vars[k].typ) <= MAX_FETCH_ARGS
    ensures GroupAt(env, specs, LeafOf(env, vars, k), vars[k], WordOf(vars, k))
  {
    hide TailAt, GroupAt, LeafOf, WordOf, ValueSpecs, AbiWordCount, ValueCaptures;
    GroupOf(env, specs, 0, vars, 0, k);
    TailInside(env, specs, 0, vars, 0);
    TailInside(env, specs, LeafOf(env, vars, k), vars[k..], WordOf(vars, k));
    GroupBound(env, specs, LeafOf(env, vars, k), vars[k], WordOf(vars, k));
  }

  lemma {:induction false} WordsApart(vars: seq<Variable>, x: nat, y: nat)
    requires x < y < |vars|
    ensures WordOf(vars, x) + AbiWordCount(vars[x].typ) <= WordOf(vars, y)
    decreases y
  {
    hide AbiWordCount;
    NextPlace(_ => Str, vars, y - 1);
    if x < y - 1 { WordsApart(vars, x, y - 1); }
  }

  /** The registers of the witness: one word in the j-th variable's, X in the k-th one's first, zero else. */
  function WitnessRegisters(vars: seq<Variable>, j: nat, k: nat, w: Word): KernelFetch.PtRegs
    requires j < |vars| && k < |vars| && WordOf(vars, j) + AbiWordCount(vars[j].typ) <= |ABI_REGS|
  {
    FilledIn(ABI_REGS[WordOf(vars, j)..WordOf(vars, j) + AbiWordCount(vars[j].typ)], w, Reg(WordOf(vars, k)))
  }

  lemma WitnessHolder(vars: seq<Variable>, j: nat, k: nat, w: Word)
    requires j < k < |vars| && WordOf(vars, j) + AbiWordCount(vars[j].typ) <= |ABI_REGS| && WordOf(vars, k) < |ABI_REGS|
    ensures AllAre(WitnessRegisters(vars, j, k, w), WordOf(vars, j), AbiWordCount(vars[j].typ), w)
    ensures WitnessRegisters(vars, j, k, w)(Reg(WordOf(vars, k))) == ONES
  {
    hide WordOf, AbiWordCount, Reg;
    WordsApart(vars, j, k);
    HolderFilled(WordOf(vars, j), AbiWordCount(vars[j].typ), w, WordOf(vars, k));
  }

  lemma HolderFilled(wj: nat, n: nat, w: Word, wk: nat)
    requires wj + n <= wk < |ABI_REGS|
    ensures var ctx := FilledIn(ABI_REGS[wj..wj + n], w, Reg(wk));
            AllAre(ctx, wj, n, w) && ctx(Reg(wk)) == ONES
  {
    var regs := ABI_REGS[wj..wj + n];
    var ctx := FilledIn(regs, w, Reg(wk));
    forall r | wj <= r < wj + n
      ensures RegisterIs(ctx, r, w)
    {
      assert regs[r - wj] == Reg(r);
    }
    NotInRange(wk, wj, n);
  }

  lemma WitnessOther(vars: seq<Variable>, j: nat, k: nat, x: nat, w: Word)
    requires j < k < |vars| && x < k && x != j && WordOf(vars, j) + AbiWordCount(vars[j].typ) <= |ABI_REGS|
    requires WordOf(vars, k) < |ABI_REGS|
    ensures AllAre(WitnessRegisters(vars, j, k, w), WordOf(vars, x), AbiWordCount(vars[x].typ), ZERO_WORD)
  {
    hide WordOf, AbiWordCount, Reg;
    WordsApart(vars, x, k);
    if x < j { WordsApart(vars, x, j); } else { WordsApart(vars, j, x); }
    var wj, n := WordOf(vars, j), AbiWordCount(vars[j].typ);
    OthersZero(WordOf(vars, x), AbiWordCount(vars[x].typ), wj, n, w, WordOf(vars, k));
  }

  lemma OthersZero(wi: nat, m: nat, wj: nat, n: nat, w: Word, wk: nat)
    requires wj + n <= |ABI_REGS| && wk < |ABI_REGS| && wi + m <= wk && (wi + m <= wj || wj + n <= wi)
    ensures AllAre(FilledIn(ABI_REGS[wj..wj + n], w, Reg(wk)), wi, m, ZERO_WORD)
  {
    hide Reg;
    var ctx := FilledIn(ABI_REGS[wj..wj + n], w, Reg(wk));
    forall r | wi <= r < wi + m
      ensures RegisterIs(ctx, r, ZERO_WORD)
    {
      NotInRange(r, wj, n);
      RegistersDiffer(r, wk);
    }
  }

  lemma NotInRange(m: nat, wi: nat, n: nat)
    requires wi + n <= |ABI_REGS| && m < |ABI_REGS| && !(wi <= m < wi + n)
    ensures Reg(m) !in ABI_REGS[wi..wi + n]
  {
    var regs := ABI_REGS[wi..wi + n];
    forall q | 0 <= q < |regs|
      ensures regs[q] != Reg(m)
    {
      RegistersDiffer(m, wi + q);
      assert regs[q] == Reg(wi + q);
    }
  }

  /** With such registers and such a memory the cursor misses the interface's own leaves. */
  lemma CursorMisses(d: Decoder, vars: seq<Variable>, j: nat, k: nat, e: Event, p: nat, n: string, at: MemLoc)
    requires OneRecipe(e) && TailAt(d.env, e.specs, 0, vars, 0) && j < k < |vars| && |e.specs| < MAX_FETCH_ARGS
    requires Underlying(vars[k].typ).Iface? && !Orderly(d.env, vars[j].typ)
    requires WordOf(vars, j) + AbiWordCount(vars[j].typ) <= |ABI_REGS|
    requires e.ctx == WitnessRegisters(vars, j, k, WitnessWord(d.env, vars[j].typ, Delta(at)))
    requires e.mem == WitnessMemory(d.env, vars[j].typ, Delta(at))
    requires HoldsItab(d.env, vars[j].typ) ==> ItabAt(d.env, vars[j], WordOf(vars, j), p, n, at)
    ensures KernelFetch.ValidRecipes(e.kernel) && LeafOf(d.env, vars, k) <= |e.rules| == |e.specs|
    ensures CursorAt(d, vars, k, e) != OwnCursor(e, LeafOf(d.env, vars, k))
  {
    hide GroupAt, ValueSpecs, Orderly, AbiWordCount, CursorAfter, OwedIn, EventOf, RulesFor, SameTable, TailAt, LeafOf, WordOf, CursorAt,
         WitnessRegisters, WitnessMemory, WitnessWord, HoldsItab, AllAre, KernelFetch.ValidRecipes, ItabAt, ReadsAs, PlannedValue, Delta,
         Paged, LowPageUnmapped;
    PlaceBound(d.env, e.specs, vars, j);
    PlaceBound(d.env, e.specs, vars, k);
    var w := WitnessWord(d.env, vars[j].typ, Delta(at));
    WitnessHolder(vars, j, k, w);
    WitnessReal(d.env, vars[j].typ, Delta(at));
    forall x | 0 <= x < k && x != j
      ensures AllAre(e.ctx, WordOf(vars, x), AbiWordCount(vars[x].typ), ZERO_WORD)
    {
      WitnessOther(vars, j, k, x, w);
    }
    HolderMoves(d, vars, j, k, e);
    CursorMoves(d, vars, j, e);
    HeadOwed(d, vars, k, e);
    HolderFallsApart(d, e, LeafOf(d.env, vars, j), vars[j], WordOf(vars, j), p, n, at);
  }

  /** An unsettled variable planned before an interface can make it miss its leaves. */
  lemma DisorderHarms(env: TypeEnv, vars: seq<Variable>, i: nat, args: seq<FetchArg>, rules: seq<KernelFetch.KernelRule>)
    requires WellFormedEnv(env)
    requires GoNames(env, vars) && i < |vars| && IsPlanned(env, vars, i) && Underlying(vars[i].typ).Iface?
    requires Loaded(PlanList(env, vars, 0, 0).0, args, rules) && |PlanList(env, vars, 0, 0).0| < MAX_FETCH_ARGS
    requires !OrderlyBefore(env, vars, i)
    ensures !AlwaysTakesOwn(env, vars, i, args, rules)
  {
    hide PlanList, GoNames, Loaded, Orderly, IsPlanned, Kept, ValueSpecs, WordOf, LeafOf, AbiWordCount, TailAt, GroupAt, HoldsItab, ItabAt,
         WitnessMemory, WitnessRegisters, WitnessWord, SameTable, RulesFor, EventOf, CursorAt, OwnCursor, TakesOwn, AllValues, LaidOut,
         KernelFetch.ValidRecipes, KernelFetch.WithRecipes, Delta, Paged, LowPageUnmapped, WellFormedEnv;
    var d := Decoder(env, _ => None, false);
    var kept, k := Kept(env, vars, 0), |KeptBefore(env, vars, i)|;
    var specs := PlanList(env, vars, 0, 0).0;
    PlaceOf(env, vars, i);
    var j :| 0 <= j < |KeptBefore(env, vars, i)| && !Orderly(env, KeptBefore(env, vars, i)[j].typ);
    assert kept[j] == kept[..k][j];
    OneRuleTables();
    PlanTail(env, vars, args, rules);
    PlaceBound(env, specs, kept, j);
    var p: nat, n: string, at := 0, [], MemLoc([], [], true);
    if HoldsItab(env, kept[j].typ) {
      p, n, at := ItabPlace(env, kept[j], WordOf(kept, j));
    }
    var t, delta := kept[j].typ, Delta(at);
    var e := Event(WitnessRegisters(kept, j, k, WitnessWord(env, t, delta)), WitnessMemory(env, t, delta), specs, rules,
                   ONE_RULE, ONE_KERNEL_RULE);
    WitnessReal(env, t, delta);
    assert Process(d, e.mem);
    assert Probed(env, vars, args, e);
    ProbedEvent(env, vars, args, e);
    CursorMisses(d, kept, j, k, e, p, n, at);
    LeafOfPrefix(env, kept, k);
    MissesOwn(d, vars, i, e);
  }

  lemma MissesOwn(d: Decoder, vars: seq<Variable>, i: nat, e: Event)
    requires i < |vars| && KernelFetch.ValidRecipes(e.kernel) && |e.specs| == |e.rules| <= MAX_FETCH_ARGS
    requires PlanList(d.env, vars, 0, 0).1 == AllValues(d.env, Kept(d.env, vars, 0))
    requires var kept, k := Kept(d.env, vars, 0), |KeptBefore(d.env, vars, i)|;
             && k <= |kept| && LeafOf(d.env, kept, k) == LeavesOf(d.env, KeptBefore(d.env, vars, i)) <= |e.rules|
             && CursorAt(d, kept, k, e) != OwnCursor(e, LeafOf(d.env, kept, k))
    ensures !TakesOwn(d, vars, i, e)
  {
    hide PlanList, Kept, LeafOf, EventOf, CursorAt, ExtraAt, OwnCursor;
    ExtraIsCursor(d, vars, i, e);
  }

  lemma PlanTail(env: TypeEnv, vars: seq<Variable>, args: seq<FetchArg>, rules: seq<KernelFetch.KernelRule>)
    requires GoNames(env, vars) && Loaded(PlanList(env, vars, 0, 0).0, args, rules)
    ensures |PlanList(env, vars, 0, 0).0| <= MAX_FETCH_ARGS && TailAt(env, PlanList(env, vars, 0, 0).0, 0, Kept(env, vars, 0), 0)
  {
    hide PlanList, GoNames, Loaded, SameTable, Kept, RulesFor, TailAt, EventOf, OwnCursor;
    OneRuleTables();
    ProbedEvent(env, vars, args, Event(_ => ZERO_WORD, map[], PlanList(env, vars, 0, 0).0, rules, ONE_RULE, ONE_KERNEL_RULE));
  }

  lemma ExtraIsCursor(d: Decoder, vars: seq<Variable>, i: nat, e: Event)
    requires i < |vars| && KernelFetch.ValidRecipes(e.kernel) && |e.specs| <= MAX_FETCH_ARGS
    requires PlanList(d.env, vars, 0, 0).1 == AllValues(d.env, Kept(d.env, vars, 0))
    requires |KeptBefore(d.env, vars, i)| <= |Kept(d.env, vars, 0)|
    ensures ExtraAt(d, vars, i, e) == CursorAt(d, Kept(d.env, vars, 0), |KeptBefore(d.env, vars, i)|, e)
  {
  }

  /** A top-level interface is always given its own recipe leaves if and only if every variable
   *  planned before it is orderly, or the plan already fills the event. */
  lemma OwnLeavesIff(env: TypeEnv, vars: seq<Variable>, i: nat, args: seq<FetchArg>, rules: seq<KernelFetch.KernelRule>)
    requires WellFormedEnv(env)
    requires GoNames(env, vars) && i < |vars| && IsPlanned(env, vars, i) && Underlying(vars[i].typ).Iface?
    requires Loaded(PlanList(env, vars, 0, 0).0, args, rules)
    ensures AlwaysTakesOwn(env, vars, i, args, rules)
       <==> OrderlyBefore(env, vars, i) || |PlanList(env, vars, 0, 0).0| == MAX_FETCH_ARGS
  {
    hide PlanList, GoNames, Loaded, Orderly, IsPlanned, Kept, ValueSpecs, WordOf, LeafOf, AbiWordCount, OrderlyBefore, Probed, TakesOwn,
         Process, Paged, WellFormedEnv;
    PlanTail(env, vars, args, rules);
    if OrderlyBefore(env, vars, i) || |PlanList(env, vars, 0, 0).0| == MAX_FETCH_ARGS {
      forall d: Decoder, e: Event | d.env == env && e.rules == rules && Probed(env, vars, args, e) && Process(d, e.mem) && Paged(e.mem)
        ensures TakesOwn(d, vars, i, e)
      {
        OrderTakesOwn(d, vars, i, args, e);
      }
    } else {
      DisorderHarms(env, vars, i, args, rules);
    }
  }

  lemma OrderTakesOwn(d: Decoder, vars: seq<Variable>, i: nat, args: seq<FetchArg>, e: Event)
    requires Probed(d.env, vars, args, e) && i < |vars| && IsPlanned(d.env, vars, i)
    requires GoNames(d.env, vars) && Underlying(vars[i].typ).Iface?
    requires OrderlyBefore(d.env, vars, i) || |PlanList(d.env, vars, 0, 0).0| == MAX_FETCH_ARGS
    ensures TakesOwn(d, vars, i, e)
  {
    hide Probed, PlanList, IsPlanned, Kept, LeafOf, OrderlyBefore, EventOf, OwnCursor, TailAt, GroupAt, Sent, CursorAt, OwedIn, OwnLeaves,
         IfaceOwed, Cursors, AllValues;
    ProbedEvent(d.env, vars, args, e);
    PlaceOf(d.env, vars, i);
    var kept, k := Kept(d.env, vars, 0), |KeptBefore(d.env, vars, i)|;
    if OrderlyBefore(d.env, vars, i) {
      RecipeLeavesLineUp(d, vars, i, args, e);
    } else {
      LeafOfPrefix(d.env, kept, k);
      PlaceOfGroup(d.env, e.specs, kept, k);
      FullCursor(d, kept, k, e);
      ExtraIsCursor(d, vars, i, e);
      FullOwn(e, LeavesOf(d.env, KeptBefore(d.env, vars, i)));
    }
  }

  lemma PlaceOfGroup(env: TypeEnv, specs: seq<ArgSpec>, vars: seq<Variable>, k: nat)
    requires TailAt(env, specs, 0, vars, 0) && k < |vars|
    ensures LeafOf(env, vars, k) <= |specs|
  {
    hide TailAt, GroupAt, LeafOf, WordOf, ValueSpecs;
    GroupOf(env, specs, 0, vars, 0, k);
    TailInside(env, specs, LeafOf(env, vars, k), vars[k..], WordOf(vars, k));
  }

  lemma FullOwn(e: Event, off: nat)
    requires KernelFetch.ValidRecipes(e.kernel) && |e.specs| == MAX_FETCH_ARGS && off <= |e.rules|
    ensures OwnCursor(e, off) == MAX_FETCH_ARGS
  {
  }
}
