/** What a type's recipe copies, and exactly what is shown of an interface with it. */
module RecipeTexts {
  import opened Wrappers
  import opened Words
  import opened GoTypes
  import opened FetchRules
  import opened FetchPlan
  import opened TargetMemory
  import KernelFetch
  import opened Scatter
  import opened Snapshot
  import opened Render
  import opened LiveView
  import opened TypeRecipe
  import opened AutoFetch
  import opened Faithfulness
  import opened AutoFetchTheorem
  import opened Recipes
  import opened RecipeTheorem
  import opened Exactness
  import opened Glimpses
  import opened ShownExactly

  // ---- what is compiled ----

  /** Where the texts of an interface's value lie behind its data word: those of the pointer's target,
   *  or of the value itself if the data word leads to it. */
  function DynamicTexts(env: TypeEnv, dyn: GoType): seq<int>
  {
    var u := Underlying(dyn);
    if u.Ptr? then TextOffsets(env(u.target), false)
    else if IsDirect(u) then []
    else TextOffsets(u, false)
  }

  /** The word in memory at an offset from an address. */
  function LiveWord(mem: Memory, addr: nat): Option<nat>
  {
    match ReadUser(mem, addr, 8)
    case None => None
    case Some(w) => Some(LittleEndian(w))
  }

  predicate Added(steps: seq<Step>)
  {
    forall i | 0 <= i < |steps| :: !steps[i].deref
  }

  function Sum(steps: seq<Step>): int
  {
    if steps == [] then 0 else steps[0].offset + Sum(steps[1..])
  }

  lemma {:induction false} SumAppend(a: seq<Step>, b: seq<Step>)
    ensures Sum(a + b) == Sum(a) + Sum(b)
  {
    if a == [] {
      assert a + b == b;
    } else {
      assert (a + b)[0] == a[0] && (a + b)[1..] == a[1..] + b;
      SumAppend(a[1..], b);
    }
  }

  /** One leaf of 64 bytes behind the word at this offset. */
  ghost predicate CopiesBehind(r: RelRule, offset: int)
  {
    && r.size == 64 && |r.steps| > 0
    && r.steps[|r.steps| - 1] == Step(0, true)
    && Added(r.steps[..|r.steps| - 1]) && Sum(r.steps[..|r.steps| - 1]) == offset
  }

  ghost predicate AllBehind(rules: seq<RelRule>, offsets: seq<int>)
  {
    |rules| == |offsets| && forall i | 0 <= i < |rules| :: CopiesBehind(rules[i], offsets[i])
  }

  lemma {:induction false} RulesBehind(t: GoType, steps: seq<Step>)
    requires Added(steps)
    ensures AllBehind(RelMemCaptures(t, steps), Shifted(TextOffsets(t, false), Sum(steps)))
    decreases t
  {
    match t
    case Named(b) => RulesBehind(b, steps);
    case Struct(_, fields, _) => FieldRulesBehind(fields, steps);
    case Str => OneBehind(steps);
    case Slice(_, _) => OneBehind(steps);
    case _ =>
  }

  lemma OneBehind(steps: seq<Step>)
    requires Added(steps)
    ensures CopiesBehind(RelRule(AUTO_STRING_SIZE, AppendStep(steps, 0, true)), Sum(steps))
  {
    var all := steps + [Step(0, true)];
    assert all[..|all| - 1] == steps;
  }

  lemma {:induction false} FieldRulesBehind(fields: seq<Field>, steps: seq<Step>)
    requires Added(steps)
    ensures AllBehind(FieldRelMemCaptures(fields, steps), Shifted(FieldTextOffsets(fields, false), Sum(steps)))
    decreases fields
  {
    hide RelMemCaptures, TextOffsets, CopiesBehind, AppendStep, Sum, Shifted, Added;
    NothingShifted(Sum(steps));
    if fields != [] {
      var f := fields[0];
      var next := AppendStep(steps, f.offset, false);
      StepAdded(steps, f.offset);
      RulesBehind(f.typ, next);
      FieldRulesBehind(fields[1..], steps);
      ShiftedParts(TextOffsets(f.typ, false), f.offset, FieldTextOffsets(fields[1..], false), Sum(steps));
      BehindAppend(RelMemCaptures(f.typ, next), Shifted(TextOffsets(f.typ, false), Sum(next)),
                   FieldRelMemCaptures(fields[1..], steps), Shifted(FieldTextOffsets(fields[1..], false), Sum(steps)));
    }
  }

  lemma NothingShifted(base: int)
    ensures Shifted([], base) == []
  {
  }

  lemma ShiftedParts(a: seq<int>, offset: int, b: seq<int>, base: int)
    ensures Shifted(Shifted(a, offset) + b, base) == Shifted(a, base + offset) + Shifted(b, base)
  {
  }

  lemma BehindAppend(r1: seq<RelRule>, o1: seq<int>, r2: seq<RelRule>, o2: seq<int>)
    requires AllBehind(r1, o1) && AllBehind(r2, o2)
    ensures AllBehind(r1 + r2, o1 + o2)
  {
    hide CopiesBehind;
  }

  lemma StepAdded(steps: seq<Step>, offset: int)
    requires Added(steps)
    ensures Added(AppendStep(steps, offset, false)) && Sum(AppendStep(steps, offset, false)) == Sum(steps) + offset
  {
    var one := [Step(offset, false)];
    assert one[1..] == [];
    SumAppend(steps, one);
  }

  /** Following such a rule from a data word leads to the word stored at that offset from it. */
  lemma {:induction false} BehindWalks(r: RelRule, offset: int, p: nat, mem: Memory)
    requires CopiesBehind(r, offset) && p < ADDRESSES
    ensures KernelFetch.Walk(mem, p, r.steps) == LiveWord(mem, (p + offset) % ADDRESSES)
  {
    var adds := r.steps[..|r.steps| - 1];
    assert r.steps == adds + [Step(0, true)];
    AddsWalk(mem, p, adds);
    WalkAppend(mem, p, adds, [Step(0, true)]);
    assert [Step(0, true)][1..] == [];
  }

  lemma {:induction false} AddsWalk(mem: Memory, p: nat, adds: seq<Step>)
    requires Added(adds) && p < ADDRESSES
    ensures KernelFetch.Walk(mem, p, adds) == Some((p + Sum(adds)) % ADDRESSES)
    decreases |adds|
  {
    if adds != [] {
      var next := (p + adds[0].offset) % ADDRESSES;
      AddsWalk(mem, next, adds[1..]);
      AddModulo(p + adds[0].offset, Sum(adds[1..]));
    }
  }

  lemma AddModulo(a: int, b: int)
    ensures (a % ADDRESSES + b) % ADDRESSES == (a + b) % ADDRESSES
  {
    AtShift(a, 0, b);
    assert At((a + 0) % ADDRESSES, b) == At(a, 0 + b);
  }

  /** The decoder, through its snapshot, comes to the same word if the snapshot has it. */
  lemma {:induction false} BehindEvaluates(r: RelRule, offset: int, p: nat, chunks: seq<Chunk>)
    requires CopiesBehind(r, offset) && p < ADDRESSES
    ensures EvalRel(p, r.steps, chunks)
         == match Read(chunks, (p + offset) % ADDRESSES, 8)
            case None => 0
            case Some(w) => LittleEndian(w)
  {
    var adds := r.steps[..|r.steps| - 1];
    assert r.steps == adds + [Step(0, true)];
    AddsEvaluate(p, adds, chunks);
  }

  lemma {:induction false} AddsEvaluate(p: nat, adds: seq<Step>, chunks: seq<Chunk>)
    requires Added(adds) && p < ADDRESSES
    ensures EvalRel(p, adds + [Step(0, true)], chunks)
         == match Read(chunks, (p + Sum(adds)) % ADDRESSES, 8)
            case None => 0
            case Some(w) => LittleEndian(w)
    decreases |adds|
  {
    hide Read;
    var all := adds + [Step(0, true)];
    if adds == [] {
      assert all[1..] == [] && all[0] == Step(0, true);
    } else {
      assert all[0] == adds[0] && all[1..] == adds[1..] + [Step(0, true)];
      AddsEvaluate((p + adds[0].offset) % ADDRESSES, adds[1..], chunks);
      AddModulo(p + adds[0].offset, Sum(adds[1..]));
    }
  }

  function FirstFour(offsets: seq<int>): seq<int>
  {
    if |offsets| > 4 then offsets[..4] else offsets
  }

  /** The compiled recipe has exactly one rule for each of the first four texts, in order; the probe,
   *  following rule `i` from the data word, comes to the word stored at that text's offset from it. */
  lemma CompiledRules(env: TypeEnv, dyn: GoType)
    ensures var rules, texts := CompileTypeRecipe(env, dyn), FirstFour(DynamicTexts(env, dyn));
            && AllBehind(rules, texts)
            && forall i, p: nat, mem | 0 <= i < |rules| && p < ADDRESSES ::
                 KernelFetch.Walk(mem, p, rules[i].steps) == LiveWord(mem, (p + texts[i]) % ADDRESSES)
  {
    hide RelMemCaptures, TextOffsets, CopiesBehind, KernelFetch.Walk, LiveWord;
    var u := Underlying(dyn);
    var target := if u.Ptr? then env(u.target) else u;
    PointerIsDirect(u);
    UnderlyingTwice(dyn);
    RulesBehind(target, []);
    assert Shifted(TextOffsets(target, false), Sum([])) == TextOffsets(target, false);
    var rules, texts := CompileTypeRecipe(env, dyn), FirstFour(DynamicTexts(env, dyn));
    forall i, p: nat, mem | 0 <= i < |rules| && p < ADDRESSES
      ensures KernelFetch.Walk(mem, p, rules[i].steps) == LiveWord(mem, (p + texts[i]) % ADDRESSES)
    {
      BehindWalks(rules[i], texts[i], p, mem);
    }
  }

  lemma {:induction false} UnderlyingTwice(t: GoType)
    ensures Underlying(Underlying(t)) == Underlying(t)
  {
    if t.Named? { UnderlyingTwice(t.base); }
  }

  // ---- what is copied with it ----

  /** The copies once `room` recipe leaves are bound: for each text, if its word can be seen in the
   *  copies so far, the 64 bytes it leads to. */
  function WithTexts(copies: seq<nat>, p: nat, texts: seq<int>, mem: Memory, room: nat): seq<nat>
    decreases |texts|
  {
    if texts == [] || room == 0 then copies
    else
      var at := (p + texts[0]) % ADDRESSES;
      var word := if Seen(copies, at, 8) then LiveWord(mem, at).GetOr(0) else 0;
      WithTexts(copies + Copies([word], mem), p, texts[1..], mem, room - 1)
  }

  /** One leaf of the recipe, bound where the decoder's path leads. */
  lemma LeafMirrors(r: RelRule, k: KernelFetch.KernelRelRule, offset: int, p: nat, mem: Memory, chunks: seq<Chunk>, copies: seq<nat>)
    requires CopiesBehind(r, offset) && EncodesRel(k, r) && Fits(r) && p < ADDRESSES
    requires Sound(chunks, mem) && Mirrors(chunks, copies) && (p == 0 ==> copies == [])
    ensures var at := (p + offset) % ADDRESSES;
            var word := if Seen(copies, at, 8) then LiveWord(mem, at).GetOr(0) else 0;
            var leaf := KernelFetch.RelLeaf(mem, p, k);
            && EvalRel(p, r.steps, chunks) == word
            && Sound(Put(word, leaf), mem) && Mirrors(Put(word, leaf), Copies([word], mem))
            && (p == 0 ==> Copies([word], mem) == [])
  {
    hide EvalRel, CopiesBehind, Read, Readable, Sound, KernelFetch.Walk;
    var at := (p + offset) % ADDRESSES;
    BehindEvaluates(r, offset, p, chunks);
    BehindWalks(r, offset, p, mem);
    ReadIsLive(chunks, copies, mem, at, 8);
    LeafBoundWhereRead(mem, p, r, k, chunks);
    FittingRule(k, r);
    var word := EvalRel(p, r.steps, chunks);
    LeafCopying(mem, p, k, r.steps, word);
    OnePut(word, KernelFetch.RelLeaf(mem, p, k), mem);
  }

  lemma LeafCopying(mem: Memory, p: nat, k: KernelFetch.KernelRelRule, steps: seq<Step>, word: nat)
    requires k.Valid() && k.Steps() == steps && k.size == 64 && (p == 0 ==> word == 0)
    requires word != 0 ==> KernelFetch.Walk(mem, p, steps) == Some(word)
    ensures Copying(word, KernelFetch.RelLeaf(mem, p, k), mem)
  {
    hide KernelFetch.Walk, Readable;
  }

  lemma OnePut(word: nat, leaf: LeafData, mem: Memory)
    requires Copying(word, leaf, mem)
    ensures Mirrors(Put(word, leaf), Copies([word], mem))
  {
    PutsMirror([word], [leaf], mem);
    assert [word][1..] == [] && [leaf][1..] == [];
    assert Puts([word], [leaf]) == Put(word, leaf) + [];
  }

  lemma {:induction false} RecipeMirrors(rules: seq<RelRule>, recipe: seq<KernelFetch.KernelRelRule>, texts: seq<int>, p: nat, mem: Memory,
                                         all: seq<LeafData>, b: Binding, copies: seq<nat>)
    requires AllBehind(rules, texts) && SameRecipe(rules, recipe) && (forall r <- recipe :: r.Valid()) && p < ADDRESSES
    requires Sound(b.chunks, mem) && Mirrors(b.chunks, copies) && (p == 0 ==> copies == [])
    requires b.extra <= |all| && RecipeAt(mem, p, recipe, all, b.extra)
    ensures var b' := BindRecipe(rules, p, all, b);
            Sound(b'.chunks, mem) && Mirrors(b'.chunks, WithTexts(copies, p, texts, mem, |all| - b.extra))
    decreases |rules|
  {
    hide EvalRel, EncodesRel, Fits, Sound, KernelFetch.RelLeaf, CopiesBehind, Copies, Mirrors, LiveWord, Seen, Put;
    if rules != [] && b.extra < |all| {
      assert all[b.extra + 0] == KernelFetch.RelLeaf(mem, p, recipe[0]);
      LeafMirrors(rules[0], recipe[0], texts[0], p, mem, b.chunks, copies);
      var at := (p + texts[0]) % ADDRESSES;
      var word := if Seen(copies, at, 8) then LiveWord(mem, at).GetOr(0) else 0;
      var next := Binding(b.chunks + Put(word, all[b.extra]), b.extra + 1);
      SoundAppend(b.chunks, Put(word, all[b.extra]), mem);
      MirrorsAppend(b.chunks, copies, Put(word, all[b.extra]), Copies([word], mem));
      RecipeTail(rules, recipe, texts);
      forall j | 0 <= j < |recipe[1..]| && next.extra + j < |all|
        ensures all[next.extra + j] == KernelFetch.RelLeaf(mem, p, recipe[1..][j])
      {
        assert all[b.extra + (j + 1)] == KernelFetch.RelLeaf(mem, p, recipe[j + 1]);
      }
      RecipeMirrors(rules[1..], recipe[1..], texts[1..], p, mem, all, next, copies + Copies([word], mem));
    }
  }

  lemma RecipeTail(rules: seq<RelRule>, recipe: seq<KernelFetch.KernelRelRule>, texts: seq<int>)
    requires rules != [] && AllBehind(rules, texts) && SameRecipe(rules, recipe)
    ensures AllBehind(rules[1..], texts[1..]) && SameRecipe(rules[1..], recipe[1..])
    ensures CopiesBehind(rules[0], texts[0]) && EncodesRel(recipe[0], rules[0]) && Fits(rules[0])
  {
    hide CopiesBehind, EncodesRel, Fits;
  }

  // ---- an interface variable ----

  /** The texts for which the table has rules: those of the learned type's recipe. */
  function KnownTexts(d: Decoder, user: RecipeTable, typeAddr: nat): seq<int>
  {
    if typeAddr in user && d.resolve(typeAddr).Some? then FirstFour(DynamicTexts(d.env, d.resolve(typeAddr).value)) else []
  }

  /** Exactly what can be told of an interface by its two words, a copy behind its data word and
   *  `room` leaves of its type's recipe. */
  function IfaceGlimpse(d: Decoder, val: Bytes, mem: Memory, user: RecipeTable, room: nat): Rendered
  {
    var p := WordIn(val, 8);
    Glimpse(d, Iface(false), Defined(val), 0, 16, mem, WithTexts(Copies([p], mem), p, KnownTexts(d, user, WordIn(val, 0)), mem, room), 0)
  }

  /** The recipe leaves that are left. */
  function Room(all: seq<LeafData>, extra: nat): nat
  {
    if extra <= |all| then |all| - extra else 0
  }

  /** An interface, without rules or with its own recipe leaves, is shown as exactly that. */
  lemma InterfaceShownExactly(d: Decoder, v: Variable, wi: nat, val: Bytes, ctx: KernelFetch.PtRegs, mem: Memory,
                              words: seq<LeafData>, captures: seq<LeafData>, all: seq<LeafData>, extra: nat,
                              user: RecipeTable, kernel: KernelFetch.KernelRecipes)
    requires Process(d, mem) && Covered(d.env, v.typ) && VariableHeld(v.typ, val, wi, ctx, mem) && TopPlain(d, v.typ, val, mem)
    requires wi + 2 <= |ABI_REGS| && Underlying(v.typ).Iface?
    requires words == ExecAll(ctx, mem, WordSpecs(Underlying(v.typ), v.name, wi))
    requires captures == ExecAll(ctx, mem, RegBlobs(Underlying(v.typ), v.name, wi))
    requires SameTable(user, kernel) && KernelFetch.ValidRecipes(kernel) && Learned(d, user)
    requires Quiet(d.env, v.typ, wi, ctx, mem, user) || OwnLeaves(all, extra, IfaceOwed(mem, words, 0, kernel))
    ensures RenderLeaves(d, PlannedValue(d.env, v.typ, v.name), words, captures, all, extra, user).rendered
         == IfaceGlimpse(d, val, mem, user, Room(all, extra))
  {
    hide RenderValue, Glimpse, Exec, InRegisters, ApplyExtras, IfaceOwed, EncodesRel, Sound, Covered, Flattens, WordsAre, RegisterPlain,
         WordSpecs, RegBlobs, SameTable, VariableHeld, Process, WithTexts, KnownTexts, HasRules, OwnLeaves, Learned, Copies;
    IfaceHeld(d.env, v.typ, val, wi, ctx, mem);
    var u := Underlying(v.typ);
    InterfaceReadable(u, v.name, wi, ctx, mem);
    HeaderFaithful(u, v.name, wi, val, ctx, mem, words);
    NilIsZero(u, v.name, wi, ctx, mem);
    IfaceWords(words);
    var header := ConcatLeaves(words);
    HeaderIsValue(u, val, header);
    OwnRules(user, kernel, mem, words);
    if Quiet(d.env, v.typ, wi, ctx, mem, user) { UnknownType(u, v.name, wi, ctx, mem, user); }
    if ReadUint(words[0].data) == 0 {
      NilGlimpse(d, val, mem, user, Room(all, extra));
    } else {
      SnapshotGlimpse(d, v, wi, val, ctx, mem, header, captures, all, extra, user, kernel);
    }
  }

  lemma OwnRules(user: RecipeTable, kernel: KernelFetch.KernelRecipes, mem: Memory, words: seq<LeafData>)
    requires |words| == 2 && SameTable(user, kernel) && KernelFetch.ValidRecipes(kernel)
    ensures var typeAddr, p := ReadUint(words[0].data), ReadUint(words[1].data);
            HasRules(user, typeAddr) ==> typeAddr in kernel && IfaceOwed(mem, words, 0, kernel) == KernelFetch.RecipeLeaves(mem, p, kernel[typeAddr])
  {
    OwedWords(mem, words, kernel);
  }

  lemma HeaderIsValue(u: GoType, val: Bytes, header: Bytes)
    requires u.Iface? && |header| == 16 <= |val| && Flattens(u, 0, val, header, 0)
    ensures WordIn(val, 0) == ReadUint(val) == ReadUint(header) && WordIn(val, 8) == ReadUint(header[8..]) && val[..16] == header
    ensures WordIn(val, 8) < ADDRESSES
  {
    assert val[0..16] == header[0..16] && header[0..16] == header && val[..16] == val[0..16];
    assert val[..8] == val[..16][..8] && val[0..8] == val[..8];
    assert header[8..][..8] == val[..16][8..16] == val[8..16];
    WordBound(val[8..16]);
  }

  lemma NilGlimpse(d: Decoder, val: Bytes, mem: Memory, user: RecipeTable, room: nat)
    requires |val| >= 16 && WordIn(val, 0) == 0
    ensures IfaceGlimpse(d, val, mem, user, room) == Nil
  {
    hide WithTexts, KnownTexts, Copies, DynamicGlimpse;
    var img := Defined(val);
    assert AllKnown(img, 0, 16) && Known(img, 0, 8) == val[0..8];
  }

  lemma SnapshotGlimpse(d: Decoder, v: Variable, wi: nat, val: Bytes, ctx: KernelFetch.PtRegs, mem: Memory,
                        header: Bytes, captures: seq<LeafData>, all: seq<LeafData>, extra: nat,
                        user: RecipeTable, kernel: KernelFetch.KernelRecipes)
    requires Process(d, mem) && Underlying(v.typ).Iface? && wi + 2 <= |ABI_REGS| && |header| == 16 <= |val|
    requires WordsAre(ctx, mem, WordSpecs(Underlying(v.typ), v.name, wi), header, 0)
    requires Flattens(Underlying(v.typ), 0, val, header, 0) && TopPlain(d, v.typ, val, mem)
    requires captures == ExecAll(ctx, mem, RegBlobs(Underlying(v.typ), v.name, wi))
    requires SameTable(user, kernel) && KernelFetch.ValidRecipes(kernel) && Learned(d, user) && ReadUint(header) != 0
    requires var typeAddr, dataPtr := ReadUint(header), ReadUint(header[8..]);
             HasRules(user, typeAddr) ==> OwnLeaves(all, extra, KernelFetch.RecipeLeaves(mem, dataPtr, kernel[typeAddr]))
    ensures var b := ApplyExtras(user, ReadUint(header), ReadUint(header[8..]), all, Binding(BindIface(header, captures), extra));
            RenderValue(d, v.typ, header, 0, b.chunks, 0) == IfaceGlimpse(d, val, mem, user, Room(all, extra))
  {
    hide RenderValue, Glimpse, Exec, ApplyExtras, Flattens, WordsAre, WordSpecs, RegBlobs, SameTable, OwnLeaves, Learned, RegisterPlain, Copies,
         WithTexts, KnownTexts, Mirrors, Sound, HasRules, Process, WordIn, KernelFetch.ValidRecipes;
    var u, p := Underlying(v.typ), WordIn(val, 8);
    HeaderIsValue(u, val, header);
    IfaceBound(d, u, v.name, wi, header, val, ctx, mem, captures);
    DataCopy(u, v.name, wi, val, header, ctx, mem, captures);
    var bound := Binding(BindIface(header, captures), extra);
    ExtrasMirror(d, user, kernel, mem, ReadUint(header), p, all, bound, Copies([p], mem));
    var b := ApplyExtras(user, ReadUint(header), p, all, bound);
    HeldGlimpse(d, u, header, 16, val, b.chunks, WithTexts(Copies([p], mem), p, KnownTexts(d, user, ReadUint(header)), mem, Room(all, extra)), mem);
    NamesAreTransparent(d, v.typ, header, b.chunks, header, captures);
  }

  /** The copy behind the data word. */
  lemma DataCopy(u: GoType, name: string, wi: nat, val: Bytes, header: Bytes, ctx: KernelFetch.PtRegs, mem: Memory, captures: seq<LeafData>)
    requires u.Iface? && wi + 2 <= |ABI_REGS| && |header| == 16 <= |val|
    requires WordsAre(ctx, mem, WordSpecs(u, name, wi), header, 0) && Flattens(u, 0, val, header, 0)
    requires captures == ExecAll(ctx, mem, RegBlobs(u, name, wi))
    ensures Mirrors(BindIface(header, captures), Copies([WordIn(val, 8)], mem)) && (WordIn(val, 8) == 0 ==> Copies([WordIn(val, 8)], mem) == [])
  {
    hide WordsAre, WordSpecs, Exec, Mirrors, WordIn;
    assert Flattens(u, 0, header, header, 0);
    RegisterCopies(u, name, wi, val, header, header, ctx, mem);
    RegBlobsCount(u, name, wi);
    ConsumeRegBinds(u, header, captures);
    assert WordsIn(val, [8]) == [WordIn(val, 8)];
    assert [WordIn(val, 8)][1..] == [];
  }

  lemma ExtrasMirror(d: Decoder, user: RecipeTable, kernel: KernelFetch.KernelRecipes, mem: Memory, typeAddr: nat, p: nat,
                     all: seq<LeafData>, b: Binding, copies: seq<nat>)
    requires SameTable(user, kernel) && KernelFetch.ValidRecipes(kernel) && Learned(d, user) && p < ADDRESSES && typeAddr != 0
    requires Sound(b.chunks, mem) && Mirrors(b.chunks, copies) && (p == 0 ==> copies == [])
    requires HasRules(user, typeAddr) ==> OwnLeaves(all, b.extra, KernelFetch.RecipeLeaves(mem, p, kernel[typeAddr]))
    ensures var b' := ApplyExtras(user, typeAddr, p, all, b);
            Sound(b'.chunks, mem) && Mirrors(b'.chunks, WithTexts(copies, p, KnownTexts(d, user, typeAddr), mem, Room(all, b.extra)))
  {
    hide Mirrors, Sound, BindRecipe, EncodesRel, CompileTypeRecipe, DynamicTexts, CopiesBehind, KernelFetch.RelLeaf, Fits, Copies, Seen;
    if typeAddr in user {
      var dyn := d.resolve(typeAddr).value;
      CompiledRules(d.env, dyn);
      if user[typeAddr] == [] {
        NoExtras(user, typeAddr, p, all, b);
      } else {
        var owed := KernelFetch.RecipeLeaves(mem, p, kernel[typeAddr]);
        forall j | 0 <= j < |kernel[typeAddr]| && b.extra + j < |all|
          ensures all[b.extra + j] == KernelFetch.RelLeaf(mem, p, kernel[typeAddr][j])
        {
          assert all[b.extra + j] == owed[j];
        }
        RecipeMirrors(user[typeAddr], kernel[typeAddr], FirstFour(DynamicTexts(d.env, dyn)), p, mem, all, b, copies);
      }
    }
  }
}
