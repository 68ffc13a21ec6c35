/** Variables the planner skips, and exactly when the ones after them are still shown truly. */
module Skipped {
  import opened Wrappers
  import opened Words
  import opened GoTypes
  import opened FetchRules
  import opened FetchPlan
  import opened TargetMemory
  import KernelFetch
  import opened Scatter
  import opened Snapshot
  import opened Render
  import opened LiveView
  import opened TypeRecipe
  import opened AutoFetch
  import opened Faithfulness
  import opened AutoFetchTheorem
  import opened Recipes
  import opened RecipeTheorem
  import opened WholeList

  // ---- which registers variables occupy ----

  /** The register a variable starts in: Go's ABI gave those before it `regs` registers each. */
  function TrueWord(regs: seq<nat>, i: nat): nat
    requires i <= |regs|
    decreases i
  {
    if i == 0 then 0 else TrueWord(regs, i - 1) + regs[i - 1]
  }

  /** The planned variables up to the i-th one lie in integer registers, one for each of their words;
   *  nothing is said of the skipped ones, which Go may pass in registers or on the stack. */
  predicate Placed(env: TypeEnv, vars: seq<Variable>, regs: seq<nat>, i: nat)
    requires i < |vars|
  {
    && |regs| == |vars|
    && (forall j | 0 <= j <= i && IsPlanned(env, vars, j) :: regs[j] == AbiWordCount(vars[j].typ))
    && TrueWord(regs, i + 1) <= |ABI_REGS|
  }

  /** No variable skipped before the i-th one occupies a register. */
  predicate SkipsHarmless(env: TypeEnv, vars: seq<Variable>, regs: seq<nat>, i: nat)
    requires i <= |vars| == |regs|
  {
    forall j | 0 <= j < i && !IsPlanned(env, vars, j) :: regs[j] == 0
  }

  lemma KeptStep(env: TypeEnv, vars: seq<Variable>, i: nat)
    requires i < |vars|
    ensures KeptBefore(env, vars, i + 1) == KeptBefore(env, vars, i) + if IsPlanned(env, vars, i) then [vars[i]] else []
  {
    hide Plannable, LeafOf, PlannedValue;
    var upTo := vars[..i + 1];
    KeptSplit(env, upTo, i, 0);
    assert upTo[..i] == vars[..i];
    var last := upTo[i..];
    assert last == [vars[i]] && last[1..] == [];
    var used := LeavesOf(env, KeptBefore(env, vars, i));
    NoneKept(env, used + PlannedValue(env, vars[i].typ, vars[i].name).LeafCount());
    NoneKept(env, used);
    assert [vars[i]] + [] == [vars[i]];
    assert Kept(env, last, used) == if IsPlanned(env, vars, i) then [vars[i]] else [];
  }

  lemma NoneKept(env: TypeEnv, used: nat)
    ensures Kept(env, [], used) == []
  {
  }

  lemma {:induction false} WordAppend(vars: seq<Variable>, v: Variable)
    ensures WordOf(vars + [v], |vars| + 1) == WordOf(vars, |vars|) + AbiWordCount(v.typ)
    decreases vars
  {
    hide AbiWordCount;
    if vars == [] {
      assert vars + [v] == [v];
      assert WordOf([v][1..], 0) == 0;
    } else {
      assert (vars + [v])[1..] == vars[1..] + [v];
      WordAppend(vars[1..], v);
    }
  }

  lemma PlannedWordStep(env: TypeEnv, vars: seq<Variable>, i: nat)
    requires i < |vars|
    ensures PlannedWord(env, vars, i + 1) == PlannedWord(env, vars, i) + if IsPlanned(env, vars, i) then AbiWordCount(vars[i].typ) else 0
  {
    hide WordOf, KeptBefore, IsPlanned, AbiWordCount;
    KeptStep(env, vars, i);
    var before := KeptBefore(env, vars, i);
    if IsPlanned(env, vars, i) {
      WordAppend(before, vars[i]);
    } else {
      assert before + [] == before;
    }
  }

  /** The planner looks in the right register exactly if no skipped variable occupies one. */
  lemma {:induction false} WordsCompare(env: TypeEnv, vars: seq<Variable>, regs: seq<nat>, i: nat, n: nat)
    requires n < |vars| && i <= n && Placed(env, vars, regs, n)
    ensures PlannedWord(env, vars, i) <= TrueWord(regs, i)
    ensures PlannedWord(env, vars, i) == TrueWord(regs, i) <==> SkipsHarmless(env, vars, regs, i)
    decreases i
  {
    hide PlannedWord, IsPlanned, AbiWordCount;
    if i == 0 {
      FirstWordIs(env, vars);
    } else {
      WordsCompare(env, vars, regs, i - 1, n);
      PlannedWordStep(env, vars, i - 1);
      assert SkipsHarmless(env, vars, regs, i) <==>
               SkipsHarmless(env, vars, regs, i - 1) && (IsPlanned(env, vars, i - 1) || regs[i - 1] == 0);
    }
  }

  lemma FirstWordIs(env: TypeEnv, vars: seq<Variable>)
    ensures PlannedWord(env, vars, 0) == 0
  {
    assert vars[..0] == [];
  }

  // ---- the question ----

  /** The i-th variable is shown truly whatever the process holds: for every display option and every
   *  runtime type table, registers, memory, recipes and value. */
  ghost predicate AlwaysShown(env: TypeEnv, vars: seq<Variable>, regs: seq<nat>, i: nat, args: seq<FetchArg>,
                              rules: seq<KernelFetch.KernelRule>)
    requires i < |vars| == |regs|
  {
    forall d: Decoder, val: Bytes, e: Event | d.env == env && e.rules == rules && Running(d, vars, regs, i, val, args, e) ::
      TrulyShown(d, vars, i, val, e)
  }

  /** A run in which the variable's value lies where Go's ABI puts it and its recipe leaves, if it
   *  has any, are its own. */
  ghost predicate Running(d: Decoder, vars: seq<Variable>, regs: seq<nat>, i: nat, val: Bytes, args: seq<FetchArg>, e: Event)
    requires i < |vars| == |regs|
  {
    && Process(d, e.mem) && Probed(d.env, vars, args, e) && Undisturbed(d.env, vars, i, e)
    && VariableHeld(vars[i].typ, val, TrueWord(regs, i), e.ctx, e.mem) && TopPlain(d, vars[i].typ, val, e.mem)
  }

  ghost predicate TrulyShown(d: Decoder, vars: seq<Variable>, i: nat, val: Bytes, e: Event)
    requires i < |vars|
  {
    && |e.specs| <= MAX_FETCH_ARGS && KernelFetch.ValidRecipes(e.kernel)
    && var k := |KeptBefore(d.env, vars, i)|;
       k < |ShownList(d, vars, e)| && ShowsTruly(d, ShownList(d, vars, e)[k], vars[i], val, e.mem)
  }

  /** Where the register lies whose content alone can make the value look different; none if all of
   *  the value lies too deep to be shown. */
  function Deciding(t: GoType, depth: nat): Option<nat>
    decreases t
  {
    if depth >= MAX_DYNAMIC_DEPTH then None
    else
      match t
      case Named(b) => Deciding(b, depth)
      case Str => Some(1)
      case Slice(_, _) => Some(1)
      case Struct(_, fields, _) => FieldsDeciding(fields, depth + 1)
      case _ => Some(0)
  }

  function FieldsDeciding(fields: seq<Field>, depth: nat): Option<nat>
    decreases fields
  {
    if fields == [] then None
    else if Deciding(fields[0].typ, depth).Some? then Deciding(fields[0].typ, depth)
    else
      match FieldsDeciding(fields[1..], depth)
      case None => None
      case Some(k) => Some(AbiWordCount(fields[0].typ) + k)
  }

  function TopDeciding(t: GoType): Option<nat>
  {
    if Underlying(t).Ptr? then Some(0) else Deciding(Underlying(t), 0)
  }

  lemma {:induction false} DecidingInside(t: GoType, depth: nat)
    requires AbiWordCount(t) > 0 && Deciding(t, depth).Some?
    ensures Deciding(t, depth).value < AbiWordCount(t)
    decreases t
  {
    match t
    case Named(b) => DecidingInside(b, depth);
    case Struct(_, fields, _) =>
      SupportedFields(fields);
      FieldsDecidingInside(fields, depth + 1);
    case _ =>
  }

  lemma {:induction false} FieldsDecidingInside(fields: seq<Field>, depth: nat)
    requires AllSupported(fields) && FieldsDeciding(fields, depth).Some?
    ensures FieldsDeciding(fields, depth).value < FieldWordCount(fields)
    decreases fields
  {
    SupportedFields(fields);
    assert fields[0] in fields;
    if Deciding(fields[0].typ, depth).Some? {
      DecidingInside(fields[0].typ, depth);
    } else {
      FieldsDecidingInside(fields[1..], depth);
    }
  }

  // ---- registers that are all alike but one ----

  const ONES: Word := [1, 1, 1, 1, 1, 1, 1, 1]
  const X: nat := 0x0101_0101_0101_0101

  lemma OnesWord()
    ensures LittleEndian(ONES) == X && LittleEndian(ZERO_WORD) == 0
  {
    assert LittleEndian([1, 1]) == 0x0101;
    assert [1, 1, 1, 1][1..][1..] == [1, 1];
    assert LittleEndian([1, 1, 1, 1]) == 0x0101_0101;
    var six: Bytes := [1, 1, 1, 1, 1, 1];
    assert six[1..][1..] == [1, 1, 1, 1];
    assert LittleEndian(six) == 0x0101_0101_0101;
    assert ONES[1..][1..] == six;
    KernelFetch.ZerosAreZero(ZERO_WORD);
  }

  /** Every register is zero or X, and of the memory around X only the word at X + 8 is mapped. */
  ghost predicate Blank(ctx: KernelFetch.PtRegs, mem: Memory)
  {
    && (forall r: string :: Uniform(ctx, r))
    && ReadUser(mem, X + 8, 8) == Some(ONES)
    && At(X, 0) !in mem && At(0, 0) !in mem
  }

  predicate Uniform(ctx: KernelFetch.PtRegs, r: string)
  {
    ctx(r) == ZERO_WORD || ctx(r) == ONES
  }

  function AllOnesBut(reg: string): KernelFetch.PtRegs
  {
    r => if r == reg then ZERO_WORD else ONES
  }

  function OneWord(): Memory
  {
    map[X + 8 := 1, X + 9 := 1, X + 10 := 1, X + 11 := 1, X + 12 := 1, X + 13 := 1, X + 14 := 1, X + 15 := 1]
  }

  lemma BlankRegisters(reg: string)
    ensures Blank(AllOnesBut(reg), OneWord()) && LowPageUnmapped(OneWord())
  {
    var mem, p := OneWord(), X + 8;
    forall r: string
      ensures Uniform(AllOnesBut(reg), r)
    {
    }
    forall i | 0 <= i < 8
      ensures At(p, i) in mem && mem[At(p, i)] == 1
    {
      assert At(p, i) == p + i;
    }
    assert ReadUser(mem, p, 8).value == ONES;
  }

  /** Each word fetched is its register's content. */
  lemma BlankWord(ctx: KernelFetch.PtRegs, mem: Memory, s: ArgSpec)
    requires Blank(ctx, mem) && !s.LocSpec?
    ensures !Exec(ctx, mem, s).readError && Exec(ctx, mem, s).data[..8] == ctx(SpecReg(s))
  {
    OnesWord();
    assert Uniform(ctx, SpecReg(s));
    if s.ItabSpec? {
      assert [Step(8, false)][1..] == [];
      assert Zeros(64)[..8] == ZERO_WORD;
      assert (X + 8) % ADDRESSES == X + 8;
    }
  }

  /** No blob is fetched. */
  lemma BlankBlob(ctx: KernelFetch.PtRegs, mem: Memory, s: ArgSpec, bound: nat)
    requires Blank(ctx, mem) && BoundAtRegister(ctx, s, bound)
    ensures var leaf := Exec(ctx, mem, s); leaf.isNil || leaf.readError
  {
    OnesWord();
    assert Uniform(ctx, s.loc.reg);
    var p := LittleEndian(ctx(s.loc.reg));
    var steps := KernelFetch.Int16Steps([Step(0, false)]);
    assert steps[1..] == [] && steps[0] == Step(0, false);
    assert KernelFetch.Walk(mem, p, steps) == KernelFetch.Walk(mem, p % ADDRESSES, []);
    assert At(p % ADDRESSES, 0) !in mem;
  }

  lemma {:induction false} PutsNothing(addrs: seq<nat>, leaves: seq<LeafData>)
    requires |addrs| <= |leaves| && forall l <- leaves :: l.isNil || l.readError
    ensures Puts(addrs, leaves) == []
  {
    if addrs != [] { PutsNothing(addrs[1..], leaves[1..]); }
  }

  /** `words`, from `from` on, are the contents of `n` registers from word `wi` on. */
  ghost predicate RunAt(ctx: KernelFetch.PtRegs, wi: nat, n: nat, words: Bytes, from: nat)
  {
    from + 8 * n <= |words| && forall j | 0 <= j < n :: RunWord(ctx, wi + j, words, from + 8 * j)
  }

  ghost predicate RunWord(ctx: KernelFetch.PtRegs, wi: nat, words: Bytes, at: nat)
  {
    at + 8 <= |words| && words[at..at + 8] == ctx(Reg(wi))
  }

  lemma RunSplit(ctx: KernelFetch.PtRegs, wi: nat, n: nat, m: nat, words: Bytes, from: nat)
    requires RunAt(ctx, wi, n + m, words, from)
    ensures RunAt(ctx, wi, n, words, from) && RunAt(ctx, wi + n, m, words, from + 8 * n)
  {
    forall j | 0 <= j < m
      ensures RunWord(ctx, wi + n + j, words, from + 8 * n + 8 * j)
    {
      assert RunWord(ctx, wi + (n + j), words, from + 8 * (n + j));
    }
  }

  function Run(ctx: KernelFetch.PtRegs, wi: nat, n: nat): (words: Bytes)
    ensures |words| == 8 * n
    decreases n
  {
    if n == 0 then [] else ctx(Reg(wi)) + Run(ctx, wi + 1, n - 1)
  }

  lemma {:induction false} RunIs(ctx: KernelFetch.PtRegs, wi: nat, n: nat)
    ensures RunAt(ctx, wi, n, Run(ctx, wi, n), 0)
    decreases n
  {
    hide Reg;
    if n > 0 {
      RunIs(ctx, wi + 1, n - 1);
      var rest := Run(ctx, wi + 1, n - 1);
      forall j | 0 <= j < n
        ensures RunWord(ctx, wi + j, ctx(Reg(wi)) + rest, 8 * j)
      {
        if j > 0 {
          assert RunWord(ctx, wi + 1 + (j - 1), rest, 0 + 8 * (j - 1));
          LaterRunWord(ctx, wi + j, ctx(Reg(wi)), rest, 8 * (j - 1));
        }
      }
    }
  }

  lemma LaterRunWord(ctx: KernelFetch.PtRegs, wi: nat, first: Word, rest: Bytes, at: nat)
    requires RunWord(ctx, wi, rest, at)
    ensures RunWord(ctx, wi, first + rest, at + 8)
  {
    hide Reg;
    assert (first + rest)[at + 8..at + 16] == rest[at..at + 8];
  }

  /** A value flattened by the registers' contents is held in those registers. */
  lemma {:induction false} RunHeld(t: GoType, base: nat, val: Bytes, wi: nat, ctx: KernelFetch.PtRegs, mem: Memory,
                                   words: Bytes, from: nat)
    requires WellFormed(t) && AbiWordCount(t) > 0 && Blank(ctx, mem)
    requires Flattens(t, base, val, words, from) && RunAt(ctx, wi, AbiWordCount(t), words, from)
    ensures InRegisters(t, base, val, wi, ctx, mem)
    decreases t
  {
    hide Blank;
    match t
    case Named(b) => RunHeld(b, base, val, wi, ctx, mem, words, from);
    case Struct(_, fields, size) =>
      SupportedFields(fields);
      FieldsRunHeld(fields, size, base, val, wi, ctx, mem, words, from);
    case _ => LeafRunHeld(t, base, val, wi, ctx, mem, words, from);
  }

  lemma LeafRunHeld(t: GoType, base: nat, val: Bytes, wi: nat, ctx: KernelFetch.PtRegs, mem: Memory, words: Bytes, from: nat)
    requires WellFormed(t) && AbiWordCount(t) > 0 && !t.Named? && !t.Struct? && Blank(ctx, mem)
    requires Flattens(t, base, val, words, from) && RunAt(ctx, wi, AbiWordCount(t), words, from)
    ensures InRegisters(t, base, val, wi, ctx, mem)
  {
    hide Blank, RunAt;
    var n := AbiWordCount(t);
    match t
    case Scalar(_, m) => RunHolds(ctx, wi, n, 0, val, base, words, from, m, m);
    case Ptr(_) => RunHolds(ctx, wi, n, 0, val, base, words, from, 8, 8);
    case Str => TwoHeld(ctx, wi, n, val, base, words, from, 16);
    case Slice(_, _) =>
      TwoHeld(ctx, wi, n, val, base, words, from, 24);
      RunHolds(ctx, wi, n, 2, val, base, words, from, 24, 8);
    case Iface(nonEmpty) =>
      TwoHeld(ctx, wi, n, val, base, words, from, 16);
      ItabRun(wi, val, base, mem, ctx);
  }

  lemma TwoHeld(ctx: KernelFetch.PtRegs, wi: nat, count: nat, val: Bytes, base: nat, words: Bytes, from: nat, n: nat)
    requires SameBytes(val, base, words, from, n) && 16 <= n && 2 <= count && RunAt(ctx, wi, count, words, from)
    ensures RegisterHolds(ctx, wi, val, base, 8) && RegisterHolds(ctx, wi + 1, val, base + 8, 8)
  {
    hide RunAt, SameBytes, RegisterHolds;
    RunHolds(ctx, wi, count, 0, val, base, words, from, n, 8);
    RunHolds(ctx, wi, count, 1, val, base, words, from, n, 8);
  }

  lemma RunHolds(ctx: KernelFetch.PtRegs, wi: nat, count: nat, j: nat, val: Bytes, base: nat, words: Bytes, from: nat, n: nat, m: nat)
    requires SameBytes(val, base, words, from, n) && m <= 8 && 8 * j + m <= n
    requires j < count && RunAt(ctx, wi, count, words, from)
    ensures RegisterHolds(ctx, wi + j, val, base + 8 * j, m)
  {
    assert RunWord(ctx, wi + j, words, from + 8 * j);
    SameBytesPart(val, base, words, from, n, 8 * j, m);
    var at := from + 8 * j;
    assert words[at..at + 8][..m] == words[at..at + m];
  }

  lemma ItabRun(wi: nat, val: Bytes, base: nat, mem: Memory, ctx: KernelFetch.PtRegs)
    requires Blank(ctx, mem) && RegisterHolds(ctx, wi, val, base, 8)
    ensures base + 8 <= |val| && ItabHolds(ctx(Reg(wi)), val[base..base + 8], mem)
  {
    hide Reg;
    OnesWord();
    var itab: Bytes := ctx(Reg(wi));
    assert itab[..8] == itab;
    assert Uniform(ctx, Reg(wi)) && (X + 8) % ADDRESSES == X + 8;
  }

  lemma {:induction false} FieldsRunHeld(fields: seq<Field>, size: int, base: nat, val: Bytes, wi: nat, ctx: KernelFetch.PtRegs,
                                         mem: Memory, words: Bytes, from: nat)
    requires AllSupported(fields) && (forall f <- fields :: FieldFits(f, size) && WellFormed(f.typ)) && Blank(ctx, mem)
    requires FieldsFlatten(fields, base, val, words, from) && RunAt(ctx, wi, FieldWordCount(fields), words, from)
    ensures FieldsInRegisters(fields, base, val, wi, ctx, mem)
    decreases fields
  {
    hide Blank, RunAt, Flattens, InRegisters, AbiWordCount, WellFormed;
    if fields != [] {
      SupportedFields(fields);
      var f, n := fields[0], AbiWordCount(fields[0].typ);
      assert f in fields && FieldFits(f, size);
      RunSplit(ctx, wi, n, FieldWordCount(fields[1..]), words, from);
      RunHeld(f.typ, base + f.offset, val, wi, ctx, mem, words, from);
      FieldsRunHeld(fields[1..], size, base, val, wi + n, ctx, mem, words, from + 8 * n);
    }
  }

  // ---- the words fetched ----

  lemma {:induction false} WordsOnly(t: GoType, name: string, wi: nat)
    ensures forall s <- WordSpecs(t, name, wi) :: !s.LocSpec?
    decreases t
  {
    match t
    case Named(b) => WordsOnly(b, name, wi);
    case Struct(_, fields, _) => FieldWordsOnly(fields, name, wi);
    case _ =>
  }

  lemma {:induction false} FieldWordsOnly(fields: seq<Field>, name: string, wi: nat)
    ensures forall s <- FieldWordSpecs(fields, name, wi) :: !s.LocSpec?
    decreases fields
  {
    hide WordSpecs;
    if fields != [] {
      var fieldName := name + "." + fields[0].name;
      WordsOnly(fields[0].typ, fieldName, wi);
      FieldWordsOnly(fields[1..], name, Advance(wi, |WordSpecs(fields[0].typ, fieldName, wi)|));
    }
  }

  lemma {:induction false} WordRegsAll(specs: seq<ArgSpec>)
    requires forall s <- specs :: !s.LocSpec?
    ensures |WordRegs(specs)| == |specs| && forall j | 0 <= j < |specs| :: WordRegs(specs)[j] == SpecReg(specs[j])
  {
    if specs != [] {
      assert specs[0] in specs;
      WordRegsAll(specs[1..]);
    }
  }

  /** The header of a value in such registers is their contents. */
  lemma HeaderRun(u: GoType, name: string, wi: nat, ctx: KernelFetch.PtRegs, mem: Memory)
    requires Blank(ctx, mem) && AbiWordCount(u) > 0 && wi + AbiWordCount(u) <= |ABI_REGS|
    ensures var specs := WordSpecs(u, name, wi);
            var words := ExecAll(ctx, mem, specs);
            && |specs| == AbiWordCount(u) && (forall w <- words :: !w.readError)
            && |ConcatLeaves(words)| == 8 * AbiWordCount(u)
            && WordsAre(ctx, mem, specs, ConcatLeaves(words), 0)
            && RunAt(ctx, wi, AbiWordCount(u), ConcatLeaves(words), 0)
  {
    hide WordSpecs, Exec, Blank, AbiWordCount, AllInAbi;
    var specs := WordSpecs(u, name, wi);
    WordSpecsCount(u, name, wi);
    WordsOnly(u, name, wi);
    WordSpecsInOrder(u, name, wi);
    WordRegsAll(specs);
    forall s | s in specs
      ensures !Exec(ctx, mem, s).readError && Exec(ctx, mem, s).data[..8] == ctx(SpecReg(s))
    {
      BlankWord(ctx, mem, s);
    }
    var words := ExecAll(ctx, mem, specs);
    HeaderWords(ctx, mem, specs, words);
    var header := ConcatLeaves(words);
    forall j | 0 <= j < |specs|
      ensures RunWord(ctx, wi + j, header, 8 * j)
    {
      assert WordIs(ctx, mem, specs[j], header, 0 + 8 * j) && specs[j] in specs;
      assert WordRegs(specs)[j] == SpecReg(specs[j]) && RegRange(wi, |specs|)[j] == Reg(wi + j);
    }
  }

  /** None of its blobs is bound. */
  lemma NoChunks(u: GoType, name: string, wi: nat, img: Bytes, header: Bytes, ctx: KernelFetch.PtRegs, mem: Memory)
    requires Blank(ctx, mem) && WellFormed(u) && AbiWordCount(u) > 0 && wi + AbiWordCount(u) <= |ABI_REGS|
    requires Flattens(u, 0, img, header, 0) && WordsAre(ctx, mem, WordSpecs(u, name, wi), header, 0)
    ensures ConsumeReg(u, img, ExecAll(ctx, mem, RegBlobs(u, name, wi))).chunks == []
    ensures forall l <- ExecAll(ctx, mem, RegBlobs(u, name, wi)) :: l.isNil || l.readError
  {
    hide Exec, Flattens, WordsAre, WordSpecs, Blank, BoundAtRegister;
    var blobs := RegBlobs(u, name, wi);
    var leaves := ExecAll(ctx, mem, blobs);
    assert FieldMem(img, 0) == img by { FieldMemAll(img); }
    RegPathsAgree(u, name, wi, 0, img, ctx, mem, header, 0);
    RegBlobsCount(u, name, wi);
    forall i | 0 <= i < |blobs|
      ensures leaves[i].isNil || leaves[i].readError
    {
      assert BoundAtRegister(ctx, blobs[i], RegAddrs(u, img)[i]);
      BlankBlob(ctx, mem, blobs[i], RegAddrs(u, img)[i]);
    }
    ConsumeRegBinds(u, img, leaves);
    PutsNothing(RegAddrs(u, img), leaves);
  }

  lemma FieldMemAll(img: Bytes)
    ensures FieldMem(img, 0) == img
  {
  }

  // ---- one word that differs ----

  ghost predicate ZeroAt(b: Bytes, at: nat)
  {
    at + 8 <= |b| && b[at..at + 8] == ZERO_WORD
  }

  ghost predicate OnesAt(b: Bytes, at: nat)
  {
    at + 8 <= |b| && b[at..at + 8] == ONES
  }

  /** No dynamic type is known and every field is shown. */
  ghost predicate Bare(d: Decoder)
  {
    !d.hideUnexported && forall a :: d.resolve(a).None?
  }

  /** Whether words flatten a value depends on that value's bytes only, wherever they lie. */
  lemma {:induction false} FlattensMove(t: GoType, i: nat, a: Bytes, j: nat, b: Bytes, words: Bytes, from: nat)
    requires WellFormed(t) && AbiWordCount(t) > 0 && Flattens(t, i, a, words, from)
    requires 0 <= Size(t) && SameBytes(a, i, b, j, Size(t))
    ensures Flattens(t, j, b, words, from)
    decreases t
  {
    match t
    case Named(u) => FlattensMove(u, i, a, j, b, words, from);
    case Struct(_, fields, size) =>
      SupportedFields(fields);
      FieldsFlattenMove(fields, size, i, a, j, b, words, from);
    case _ =>
  }

  lemma {:induction false} FieldsFlattenMove(fields: seq<Field>, size: int, i: nat, a: Bytes, j: nat, b: Bytes, words: Bytes, from: nat)
    requires AllSupported(fields) && forall f <- fields :: FieldFits(f, size) && WellFormed(f.typ)
    requires FieldsFlatten(fields, i, a, words, from)
    requires 0 <= size && SameBytes(a, i, b, j, size)
    ensures FieldsFlatten(fields, j, b, words, from)
    decreases fields
  {
    hide Flattens, WellFormed, AbiWordCount, SameBytes;
    if fields != [] {
      var f := fields[0];
      assert f in fields && FieldFits(f, size);
      WellFormedSize(f.typ);
      SameBytesPart(a, i, b, j, size, f.offset, Size(f.typ));
      FlattensMove(f.typ, i + f.offset, a, j + f.offset, b, words, from);
      FieldsFlattenMove(fields[1..], size, i, a, j, b, words, from + 8 * AbiWordCount(f.typ));
    }
  }

  /** A value whose deciding word is zero is never a faithful picture of one whose word is not. */
  lemma {:induction false} DecidingDiffers(d: Decoder, t: GoType, data: Bytes, addr: nat, val: Bytes, mem: Memory, depth: nat,
                                           words: Bytes, from: nat, words': Bytes, from': nat)
    requires depth <= MAX_DYNAMIC_DEPTH && Deciding(t, depth).Some? && WellFormed(t) && AbiWordCount(t) > 0 && Bare(d)
    requires Size(t) <= |data| && Size(t) <= |val|
    requires Flattens(t, 0, data, words, from) && Flattens(t, 0, val, words', from')
    requires ZeroAt(words, from + 8 * Deciding(t, depth).value) && OnesAt(words', from' + 8 * Deciding(t, depth).value)
    ensures !Faithful(RenderValue(d, t, data, addr, [], depth), View(d, t, Defined(val), mem, depth))
    decreases MAX_DYNAMIC_DEPTH - depth, t
  {
    hide RenderValue, View, Faithful, ZeroAt, OnesAt, Bare, FieldsFaithful, RenderFields, FieldViews, ObjectBytes, AbiWordCount, Size;
    match t
    case Named(b) =>
      NamedKind(b, depth, data, val, words, from, words', from');
      DecidingDiffers(d, b, data, addr, val, mem, depth, words, from, words', from');
      NamedStep(d, b, data, addr, Defined(val), [], mem, depth);
    case Struct(name, fields, size) =>
      StructKind(name, fields, size);
      ObjectInHand(size, data, addr);
      FieldsDiffer(d, fields, size, data, addr, val, mem, depth + 1, words, from, words', from');
      StructDiffers(d, name, fields, size, data, addr, val, mem, depth);
    case _ => LeafDiffers(d, t, data, addr, val, mem, depth, words, from, words', from');
  }

  lemma NamedKind(b: GoType, depth: nat, data: Bytes, val: Bytes, words: Bytes, from: nat, words': Bytes, from': nat)
    ensures Deciding(Named(b), depth) == Deciding(b, depth) && WellFormed(Named(b)) == WellFormed(b)
    ensures AbiWordCount(Named(b)) == AbiWordCount(b) && Size(Named(b)) == Size(b)
    ensures Flattens(Named(b), 0, data, words, from) == Flattens(b, 0, data, words, from)
    ensures Flattens(Named(b), 0, val, words', from') == Flattens(b, 0, val, words', from')
  {
  }

  lemma StructKind(name: string, fields: seq<Field>, size: int)
    requires var t := Struct(name, fields, size); WellFormed(t) && AbiWordCount(t) > 0
    ensures AllSupported(fields) && Size(Struct(name, fields, size)) == size > 0
    ensures forall f <- fields :: FieldFits(f, size) && WellFormed(f.typ)
  {
    SupportedFields(fields);
    PositiveSize(Struct(name, fields, size));
  }

  lemma ObjectInHand(size: int, data: Bytes, addr: nat)
    requires 0 < size <= |data|
    ensures ObjectBytes(size, data, addr, []) == data[..size]
  {
  }

  lemma StructDiffers(d: Decoder, name: string, fields: seq<Field>, size: int, data: Bytes, addr: nat, val: Bytes, mem: Memory, depth: nat)
    requires depth < MAX_DYNAMIC_DEPTH
    requires !FieldsFaithful(RenderFields(d, fields, ObjectBytes(size, data, addr, []), addr, [], depth + 1),
                             FieldViews(d, fields, Defined(val), mem, depth + 1))
    ensures var t := Struct(name, fields, size);
            !Faithful(RenderValue(d, t, data, addr, [], depth), View(d, t, Defined(val), mem, depth))
  {
    hide FieldsFaithful, RenderFields, FieldViews, ObjectBytes;
  }

  lemma {:induction false} FieldsDiffer(d: Decoder, fields: seq<Field>, size: int, data: Bytes, addr: nat, val: Bytes, mem: Memory,
                                        depth: nat, words: Bytes, from: nat, words': Bytes, from': nat)
    requires depth <= MAX_DYNAMIC_DEPTH && FieldsDeciding(fields, depth).Some? && Bare(d)
    requires AllSupported(fields) && forall f <- fields :: FieldFits(f, size) && WellFormed(f.typ)
    requires 0 <= size <= |data| && size <= |val|
    requires FieldsFlatten(fields, 0, data, words, from) && FieldsFlatten(fields, 0, val, words', from')
    requires var k := FieldsDeciding(fields, depth).value; ZeroAt(words, from + 8 * k) && OnesAt(words', from' + 8 * k)
    ensures !FieldsFaithful(RenderFields(d, fields, data[..size], addr, [], depth), FieldViews(d, fields, Defined(val), mem, depth))
    decreases MAX_DYNAMIC_DEPTH - depth, fields
  {
    hide RenderValue, View, Faithful, ZeroAt, OnesAt, WellFormed, Flattens, Deciding, FieldBytes, FieldsFaithful, RenderFields, FieldViews;
    var f, n := fields[0], AbiWordCount(fields[0].typ);
    assert f in fields && FieldFits(f, size) && WellFormed(f.typ);
    PositiveSize(f.typ);
    FieldInHand(f, size, data, addr, val);
    if Deciding(f.typ, depth).Some? {
      FirstDiffers(d, f, size, data, addr, val, mem, depth, words, from, words', from');
    } else {
      FieldsDiffer(d, fields[1..], size, data, addr, val, mem, depth, words, from + 8 * n, words', from' + 8 * n);
    }
    FirstFieldStep(d, fields, data[..size], addr, val, mem, depth);
  }

  lemma {:induction false} FirstDiffers(d: Decoder, f: Field, size: int, data: Bytes, addr: nat, val: Bytes, mem: Memory,
                                        depth: nat, words: Bytes, from: nat, words': Bytes, from': nat)
    requires depth <= MAX_DYNAMIC_DEPTH && Deciding(f.typ, depth).Some? && Bare(d)
    requires FieldFits(f, size) && WellFormed(f.typ) && AbiWordCount(f.typ) > 0 && 0 < Size(f.typ) && 0 <= size <= |data| && size <= |val|
    requires Flattens(f.typ, f.offset, data, words, from) && Flattens(f.typ, f.offset, val, words', from')
    requires var k := Deciding(f.typ, depth).value; ZeroAt(words, from + 8 * k) && OnesAt(words', from' + 8 * k)
    ensures var shown := RenderValue(d, f.typ, FieldBytes(f, data[..size], addr, []), (addr + f.offset) % ADDRESSES, [], depth);
            !Faithful(shown, View(d, f.typ, Drop(Defined(val), f.offset), mem, depth))
    decreases MAX_DYNAMIC_DEPTH - depth, f
  {
    hide RenderValue, View, Faithful, ZeroAt, OnesAt, WellFormed, Flattens, Deciding, FieldBytes;
    FieldInHand(f, size, data, addr, val);
    var own, live := data[..size][f.offset..], val[f.offset..];
    FieldMoves(f, size, data, own, words, from);
    FieldMoves(f, size, val, live, words', from');
    DecidingDiffers(d, f.typ, own, (addr + f.offset) % ADDRESSES, live, mem, depth, words, from, words', from');
  }

  lemma FirstFieldStep(d: Decoder, fields: seq<Field>, obj: Bytes, addr: nat, val: Bytes, mem: Memory, depth: nat)
    requires depth <= MAX_DYNAMIC_DEPTH && fields != [] && Bare(d) && |FieldBytes(fields[0], obj, addr, [])| > 0
    ensures var f := fields[0];
            var shown := RenderValue(d, f.typ, FieldBytes(f, obj, addr, []), (addr + f.offset) % ADDRESSES, [], depth);
            var truth := View(d, f.typ, Drop(Defined(val), f.offset), mem, depth);
            var rest := FieldsFaithful(RenderFields(d, fields[1..], obj, addr, [], depth), FieldViews(d, fields[1..], Defined(val), mem, depth));
            FieldsFaithful(RenderFields(d, fields, obj, addr, [], depth), FieldViews(d, fields, Defined(val), mem, depth))
            <==> Faithful(shown, truth) && rest
  {
    hide RenderValue, View, Faithful, FieldBytes;
    var f := fields[0];
    var shown := RenderFields(d, fields, obj, addr, [], depth);
    var truth := FieldViews(d, fields, Defined(val), mem, depth);
    assert shown[1..] == RenderFields(d, fields[1..], obj, addr, [], depth);
    assert truth[1..] == FieldViews(d, fields[1..], Defined(val), mem, depth);
  }

  lemma FieldInHand(f: Field, size: int, data: Bytes, addr: nat, val: Bytes)
    requires FieldFits(f, size) && 0 < Size(f.typ) && 0 <= size <= |data| && size <= |val|
    ensures FieldBytes(f, data[..size], addr, []) == data[..size][f.offset..] != []
    ensures Drop(Defined(val), f.offset) == Defined(val[f.offset..])
  {
  }

  lemma FieldMoves(f: Field, size: int, data: Bytes, own: Bytes, words: Bytes, from: nat)
    requires FieldFits(f, size) && 0 <= Size(f.typ) && 0 <= size <= |data| && WellFormed(f.typ) && AbiWordCount(f.typ) > 0
    requires Flattens(f.typ, f.offset, data, words, from)
    requires own == data[..size][f.offset..] || own == data[f.offset..]
    ensures Size(f.typ) <= |own| && Flattens(f.typ, 0, own, words, from)
  {
    WellFormedSize(f.typ);
    assert SameBytes(data, f.offset, own, 0, Size(f.typ));
    FlattensMove(f.typ, f.offset, data, 0, own, words, from);
  }

  lemma WordOfImage(img: Bytes, words: Bytes, from: nat, n: nat, k: nat)
    requires SameBytes(img, 0, words, from, n) && 8 * k + 8 <= n
    ensures img[8 * k..8 * k + 8] == words[from + 8 * k..from + 8 * k + 8]
    ensures AllKnown(Defined(img), 8 * k, 8) && Known(Defined(img), 8 * k, 8) == img[8 * k..8 * k + 8]
  {
    SameBytesPart(img, 0, words, from, n, 8 * k, 8);
  }

  lemma LeafDiffers(d: Decoder, t: GoType, data: Bytes, addr: nat, val: Bytes, mem: Memory, depth: nat,
                    words: Bytes, from: nat, words': Bytes, from': nat)
    requires depth <= MAX_DYNAMIC_DEPTH && Deciding(t, depth).Some? && WellFormed(t) && AbiWordCount(t) > 0 && Bare(d)
    requires !t.Named? && !t.Struct?
    requires Flattens(t, 0, data, words, from) && Flattens(t, 0, val, words', from')
    requires ZeroAt(words, from + 8 * Deciding(t, depth).value) && OnesAt(words', from' + 8 * Deciding(t, depth).value)
    ensures !Faithful(RenderValue(d, t, data, addr, [], depth), View(d, t, Defined(val), mem, depth))
  {
    hide RenderValue, View, Faithful;
    match t
    case Scalar(kind, n) => ScalarDiffers(d, kind, n, data, addr, val, mem, depth, words, from, words', from');
    case Ptr(id) =>
      WordOfImage(data, words, from, 8, 0);
      WordOfImage(val, words', from', 8, 0);
      PointerDiffers(d, id, data, addr, val, mem, depth);
    case Str =>
      WordOfImage(data, words, from, 16, 1);
      StringDiffers(d, data, addr, val, mem, depth, words', from');
    case Slice(_, _) =>
      WordOfImage(data, words, from, 24, 1);
      SliceDiffers(d, t, data, addr, val, mem, depth, words', from');
    case Iface(_) =>
      WordOfImage(data, words, from, 16, 0);
      WordOfImage(val, words', from', 16, 0);
      InterfaceDiffers(d, t, data, addr, val, mem, depth);
  }

  lemma ScalarDiffers(d: Decoder, kind: ScalarKind, n: nat, data: Bytes, addr: nat, val: Bytes, mem: Memory, depth: nat,
                      words: Bytes, from: nat, words': Bytes, from': nat)
    requires depth < MAX_DYNAMIC_DEPTH && 1 <= n <= 8
    requires SameBytes(data, 0, words, from, n) && SameBytes(val, 0, words', from', n) && ZeroAt(words, from) && OnesAt(words', from')
    ensures var t := Scalar(kind, n);
            !Faithful(RenderValue(d, t, data, addr, [], depth), View(d, t, Defined(val), mem, depth))
  {
    assert data[0..n][0] == words[from..from + n][0] == words[from..from + 8][0] == 0;
    assert val[0..n][0] == words'[from'..from' + n][0] == words'[from'..from' + 8][0] == 1;
    assert AllKnown(Defined(val), 0, n);
    assert Known(Defined(val), 0, n)[0] == 1 && data[..n][0] == 0;
  }

  lemma PointerDiffers(d: Decoder, id: TypeId, data: Bytes, addr: nat, val: Bytes, mem: Memory, depth: nat)
    requires depth < MAX_DYNAMIC_DEPTH && |data| >= 8 && |val| >= 8
    requires data[0..8] == ZERO_WORD && val[0..8] == ONES
    ensures !Faithful(RenderValue(d, Ptr(id), data, addr, [], depth), View(d, Ptr(id), Defined(val), mem, depth))
  {
    OnesWord();
    assert data[..8] == data[0..8];
    var img := Defined(val);
    assert AllKnown(img, 0, 8) && Known(img, 0, 8) == val[0..8];
  }

  lemma StringDiffers(d: Decoder, data: Bytes, addr: nat, val: Bytes, mem: Memory, depth: nat, words': Bytes, from': nat)
    requires depth < MAX_DYNAMIC_DEPTH && |data| >= 16 && data[8..16] == ZERO_WORD
    requires SameBytes(val, 0, words', from', 16) && OnesAt(words', from' + 8)
    ensures !Faithful(RenderValue(d, Str, data, addr, [], depth), View(d, Str, Defined(val), mem, depth))
  {
    OnesWord();
    WordOfImage(val, words', from', 16, 1);
    assert data[8..16][..8] == ZERO_WORD;
    var img := Defined(val);
    assert AllKnown(img, 0, 16) && WordAt(img, 8) == X && Signed64(X) == X;
    var text := LiveText(mem, WordAt(img, 0), X);
    assert text.Some? ==> text.value.Text? && |text.value.content| == AUTO_STRING_SIZE;
  }

  lemma SliceDiffers(d: Decoder, t: GoType, data: Bytes, addr: nat, val: Bytes, mem: Memory, depth: nat, words': Bytes, from': nat)
    requires depth < MAX_DYNAMIC_DEPTH && t.Slice? && |data| >= 24 && data[8..16] == ZERO_WORD
    requires SameBytes(val, 0, words', from', 24) && OnesAt(words', from' + 8)
    ensures !Faithful(RenderValue(d, t, data, addr, [], depth), View(d, t, Defined(val), mem, depth))
  {
    OnesWord();
    WordOfImage(val, words', from', 24, 1);
    assert data[8..16][..8] == ZERO_WORD;
    var img := Defined(val);
    assert AllKnown(img, 0, 24) && WordAt(img, 8) == X && Signed64(X) == X;
  }

  lemma InterfaceDiffers(d: Decoder, t: GoType, data: Bytes, addr: nat, val: Bytes, mem: Memory, depth: nat)
    requires depth < MAX_DYNAMIC_DEPTH && t.Iface? && Bare(d) && |data| >= 16 && |val| >= 16
    requires data[0..8] == ZERO_WORD && val[0..8] == ONES
    ensures !Faithful(RenderValue(d, t, data, addr, [], depth), View(d, t, Defined(val), mem, depth))
  {
    OnesWord();
    assert data[..8] == data[0..8];
    var img := Defined(val);
    assert AllKnown(img, 0, 16) && Known(img, 0, 8) == val[0..8];
  }

  // ---- one variable read from the wrong registers ----

  /** What the decoder makes of the variable's leaves. */
  function ShownAs(d: Decoder, v: Variable, wi: nat, ctx: KernelFetch.PtRegs, mem: Memory, all: seq<LeafData>, extra: nat,
                   user: RecipeTable): Rendered
    requires AbiWordCount(v.typ) > 0
  {
    var value := PlannedValue(d.env, v.typ, v.name);
    var leaves := ExecAll(ctx, mem, ValueSpecs(d.env, v.typ, v.name, wi));
    ValueSpecsCount(d.env, v.typ, v.name, wi);
    RenderLeaves(d, value, leaves[..value.wordCount], leaves[value.wordCount..], all, extra, user).rendered
  }

  lemma WrongPointer(d: Decoder, v: Variable, wi: nat, val: Bytes, ctx: KernelFetch.PtRegs, mem: Memory, all: seq<LeafData>, extra: nat)
    requires AbiWordCount(v.typ) > 0 && Underlying(v.typ).Ptr? && 8 <= |val| && wi < |ABI_REGS|
    requires ctx(Reg(wi)) == ZERO_WORD && val[0..8] == ONES
    ensures !Faithful(ShownAs(d, v, wi, ctx, mem, all, extra, map[]), TopView(d, v.typ, val, mem))
  {
    hide ObjectImage, View, ValueSpecs, Exec, RenderLeaves;
    OnesWord();
    ValueSpecsCount(d.env, v.typ, v.name, wi);
    UnderlyingFacts(v.typ);
    assert val[..8] == val[0..8];
    var leaves := ExecAll(ctx, mem, ValueSpecs(d.env, v.typ, v.name, wi));
    FirstPointerWord(d.env, v, wi, ctx, mem);
    PointerLeaves(d, Underlying(v.typ).target, PlannedValue(d.env, v.typ, v.name), leaves[..1], leaves[1..], all, extra, map[]);
  }

  lemma FirstPointerWord(env: TypeEnv, v: Variable, wi: nat, ctx: KernelFetch.PtRegs, mem: Memory)
    requires Underlying(v.typ).Ptr? && AbiWordCount(v.typ) > 0 && |ValueSpecs(env, v.typ, v.name, wi)| > 0
    ensures var leaves := ExecAll(ctx, mem, ValueSpecs(env, v.typ, v.name, wi));
            ConcatLeaves(leaves[..1]) == ctx(Reg(wi)) && !leaves[0].readError && ReadUint(ctx(Reg(wi))) == LittleEndian(ctx(Reg(wi)))
  {
    var leaves := ExecAll(ctx, mem, ValueSpecs(env, v.typ, v.name, wi));
    assert leaves[0].data[..8] == ctx(Reg(wi));
    assert leaves[..1][1..] == [];
  }

  /** A value in such registers, read from `wi` on instead of where it lies. */
  ghost predicate Misread(v: Variable, wi: nat, val: Bytes, run: Bytes, ctx: KernelFetch.PtRegs, mem: Memory)
  {
    var u := Underlying(v.typ);
    && Blank(ctx, mem) && WellFormed(u) && AbiWordCount(u) > 0 && wi + AbiWordCount(u) <= |ABI_REGS|
    && Size(u) <= |val| && Flattens(u, 0, val, run, 0)
    && !u.Ptr? && Deciding(u, 0).Some?
    && OnesAt(run, 8 * Deciding(u, 0).value)
    && ctx(Reg(wi + Deciding(u, 0).value)) == ZERO_WORD
  }

  lemma WrongHeader(v: Variable, wi: nat, val: Bytes, run: Bytes, ctx: KernelFetch.PtRegs, mem: Memory)
    requires Misread(v, wi, val, run, ctx, mem)
    ensures var u := Underlying(v.typ);
            var words := ExecAll(ctx, mem, WordSpecs(u, v.name, wi));
            var header := ConcatLeaves(words);
            && |words| == AbiWordCount(u) && (forall w <- words :: !w.readError)
            && |header| == 8 * AbiWordCount(u) && WordsAre(ctx, mem, WordSpecs(u, v.name, wi), header, 0)
            && ZeroAt(header, 8 * Deciding(u, 0).value)
  {
    hide Blank, Exec, Flattens, WordsAre, WellFormed, WordSpecs;
    var u := Underlying(v.typ);
    HeaderRun(u, v.name, wi, ctx, mem);
    DecidingInside(u, 0);
    var header := ConcatLeaves(ExecAll(ctx, mem, WordSpecs(u, v.name, wi)));
    assert RunWord(ctx, wi + Deciding(u, 0).value, header, 0 + 8 * Deciding(u, 0).value);
  }

  lemma WrongStruct(d: Decoder, v: Variable, wi: nat, val: Bytes, run: Bytes, ctx: KernelFetch.PtRegs, mem: Memory)
    requires Misread(v, wi, val, run, ctx, mem) && Bare(d) && Underlying(v.typ).Struct?
    ensures var u := Underlying(v.typ);
            var header := ConcatLeaves(ExecAll(ctx, mem, WordSpecs(u, v.name, wi)));
            var img := ScatteredImage(v.typ, header);
            var chunks := ConsumeReg(v.typ, img, ExecAll(ctx, mem, RegBlobs(u, v.name, wi))).chunks;
            !Faithful(RenderValue(d, v.typ, img, 0, chunks, 0), TopView(d, v.typ, val, mem))
  {
    hide Blank, Exec, WordsAre, WellFormed, WordSpecs, RenderValue, View, Faithful, ConsumeReg, RegBlobs, ZeroAt, OnesAt, Deciding;
    var u := Underlying(v.typ);
    WrongHeader(v, wi, val, run, ctx, mem);
    PositiveSize(u);
    var header := ConcatLeaves(ExecAll(ctx, mem, WordSpecs(u, v.name, wi)));
    var captures := ExecAll(ctx, mem, RegBlobs(u, v.name, wi));
    ScatterUndoesFlattening(u, 0, header, 0, Zeros(Size(u)));
    var img := ScatteredImage(u, header);
    NoChunks(u, v.name, wi, img, header, ctx, mem);
    NamesAreTransparent(d, v.typ, img, [], header, captures);
    DecidingDiffers(d, u, img, 0, val, mem, 0, header, 0, run, 0);
    NothingHeld(d, u, Defined(val), mem, 0);
  }

  lemma WrongHead(d: Decoder, v: Variable, wi: nat, val: Bytes, run: Bytes, ctx: KernelFetch.PtRegs, mem: Memory)
    requires Misread(v, wi, val, run, ctx, mem) && Bare(d) && !Underlying(v.typ).Struct?
    ensures var u := Underlying(v.typ);
            var header := ConcatLeaves(ExecAll(ctx, mem, WordSpecs(u, v.name, wi)));
            var captures := ExecAll(ctx, mem, RegBlobs(u, v.name, wi));
            && BindHead(header, captures) == []
            && !Faithful(RenderValue(d, v.typ, header, 0, [], 0), TopView(d, v.typ, val, mem))
  {
    hide Blank, Exec, WordsAre, WordSpecs, RenderValue, View, Faithful, ConsumeReg, RegBlobs, ZeroAt, OnesAt;
    var u := Underlying(v.typ);
    WrongHeader(v, wi, val, run, ctx, mem);
    var header := ConcatLeaves(ExecAll(ctx, mem, WordSpecs(u, v.name, wi)));
    var captures := ExecAll(ctx, mem, RegBlobs(u, v.name, wi));
    assert Flattens(u, 0, header, header, 0);
    NoChunks(u, v.name, wi, header, header, ctx, mem);
    NamesAreTransparent(d, v.typ, header, [], header, captures);
    assert |captures| > 0 ==> captures[0] in captures;
    DecidingDiffers(d, u, header, 0, val, mem, 0, header, 0, run, 0);
    NothingHeld(d, u, Defined(val), mem, 0);
  }

  /** What is shown of a variable so misread is not true. */
  lemma WrongRegisters(d: Decoder, v: Variable, wi: nat, val: Bytes, run: Bytes, ctx: KernelFetch.PtRegs, mem: Memory,
                       all: seq<LeafData>, extra: nat)
    requires Misread(v, wi, val, run, ctx, mem) && Bare(d) && AbiWordCount(v.typ) > 0
    ensures !Faithful(ShownAs(d, v, wi, ctx, mem, all, extra, map[]), TopView(d, v.typ, val, mem))
  {
    hide Exec, WordsAre, WordSpecs, RenderValue, Faithful, ConsumeReg, RegBlobs, ZeroAt, OnesAt, Misread, ScatteredImage, TopView, Deciding,
         ConcatLeaves;
    var u := Underlying(v.typ);
    UnderlyingFacts(v.typ);
    ValueSpecsCount(d.env, v.typ, v.name, wi);
    MisreadFacts(v, wi, val, run, ctx, mem);
    var words, captures := ExecAll(ctx, mem, WordSpecs(u, v.name, wi)), ExecAll(ctx, mem, RegBlobs(u, v.name, wi));
    ExecSplit(ctx, mem, WordSpecs(u, v.name, wi), RegBlobs(u, v.name, wi));
    WrongHeader(v, wi, val, run, ctx, mem);
    if u.Struct? {
      WrongStruct(d, v, wi, val, run, ctx, mem);
    } else {
      WrongHead(d, v, wi, val, run, ctx, mem);
      if u.Iface? {
        WrongInterface(d, v, wi, val, run, ctx, mem);
      }
    }
  }

  lemma MisreadFacts(v: Variable, wi: nat, val: Bytes, run: Bytes, ctx: KernelFetch.PtRegs, mem: Memory)
    requires Misread(v, wi, val, run, ctx, mem)
    ensures !Underlying(v.typ).Ptr? && AbiWordCount(Underlying(v.typ)) > 0
  {
  }

  /** An interface whose type word is read as zero is shown as nil, which it is not. */
  lemma WrongInterface(d: Decoder, v: Variable, wi: nat, val: Bytes, run: Bytes, ctx: KernelFetch.PtRegs, mem: Memory)
    requires Misread(v, wi, val, run, ctx, mem) && Bare(d) && Underlying(v.typ).Iface?
    ensures var words := ExecAll(ctx, mem, WordSpecs(Underlying(v.typ), v.name, wi));
            |words| == 2 && ReadUint(words[0].data) == 0
    ensures !Faithful(Nil, TopView(d, v.typ, val, mem))
  {
    var u := Underlying(v.typ);
    var spec := WordSpecs(u, v.name, wi)[0];
    BlankWord(ctx, mem, spec);
    assert Exec(ctx, mem, spec).data[..8] == ZERO_WORD;
    WordOfImage(val, run, 0, 16, 0);
    OnesNotNil(d, v.typ, val, mem);
  }

  /** An interface of ones is none that is nil. */
  lemma OnesNotNil(d: Decoder, t: GoType, val: Bytes, mem: Memory)
    requires Bare(d) && Underlying(t).Iface? && |val| >= 16 && val[0..8] == ONES
    ensures !Faithful(Nil, TopView(d, t, val, mem))
  {
    hide DynamicView;
    OnesWord();
    var img := Defined(val);
    assert AllKnown(img, 0, 16) && Known(img, 0, 8) == val[0..8];
  }

  // ---- the answer ----

  lemma RegistersDiffer(i: nat, j: nat)
    requires i < |ABI_REGS| && j < |ABI_REGS| && i != j
    ensures Reg(i) != Reg(j)
  {
    assert forall k | 0 <= k < 5 :: |ABI_REGS[k]| == 2;
    assert ABI_REGS[0][0] == 'a' && ABI_REGS[1][0] == 'b' && ABI_REGS[2][0] == 'c' && ABI_REGS[3][0] == 'd' && ABI_REGS[4][0] == 's';
    assert ABI_REGS[5][0] == ABI_REGS[6][0] == ABI_REGS[7][0] == ABI_REGS[8][0] == 'r';
    assert ABI_REGS[5][1] == '8' && ABI_REGS[6][1] == '9' && ABI_REGS[7][1] == '1' && ABI_REGS[8][1] == '1';
    assert ABI_REGS[7][2] == '0' && ABI_REGS[8][2] == '1';
  }

  /** A value held in such registers. */
  lemma BlankHeld(u: GoType, wi: nat, ctx: KernelFetch.PtRegs, mem: Memory) returns (val: Bytes, run: Bytes)
    requires Blank(ctx, mem) && WellFormed(u) && AbiWordCount(u) > 0
    ensures |val| == Size(u) && Flattens(u, 0, val, run, 0) && InRegisters(u, 0, val, wi, ctx, mem)
    ensures RunAt(ctx, wi, AbiWordCount(u), run, 0)
  {
    hide Blank, Flattens, InRegisters;
    WellFormedSize(u);
    run := Run(ctx, wi, AbiWordCount(u));
    RunIs(ctx, wi, AbiWordCount(u));
    val := Scatter.Walk(u, 0, run, 0, Zeros(Size(u))).img;
    ScatterUndoesFlattening(u, 0, run, 0, Zeros(Size(u)));
    RunHeld(u, 0, val, wi, ctx, mem, run, 0);
  }

  lemma BlankItab(wi: nat, ctx: KernelFetch.PtRegs, mem: Memory)
    requires Blank(ctx, mem)
    ensures ItabReadable(ctx(Reg(wi)), mem)
  {
    OnesWord();
    assert Uniform(ctx, Reg(wi)) && (X + 8) % ADDRESSES == X + 8;
  }

  lemma BarePlain(d: Decoder, t: GoType, val: Bytes, mem: Memory)
    requires Bare(d)
    ensures TopPlain(d, t, val, mem)
  {
    hide PlainReached, ObjectImage;
    var u := Underlying(t);
    NothingResolved(d, AsHeld(u), Defined(val), mem, 0);
    NothingHeld(d, u, Defined(val), mem, 0);
    if u.Ptr? {
      NothingResolved(d, d.env(u.target), ObjectImage(d, u.target, ReadUint(val), mem), mem, 0);
    }
  }

  /** Reading a variable from registers before its own shows something false in some run. */
  lemma MisreadShown(d: Decoder, v: Variable, pw: nat, tw: nat) returns (val: Bytes, ctx: KernelFetch.PtRegs, mem: Memory)
    requires Bare(d) && WellFormed(v.typ) && AbiWordCount(v.typ) > 0 && TopDeciding(v.typ).Some?
    requires pw < tw && tw + AbiWordCount(v.typ) <= |ABI_REGS|
    ensures LowPageUnmapped(mem) && VariableHeld(v.typ, val, tw, ctx, mem)
    ensures forall all, extra :: !Faithful(ShownAs(d, v, pw, ctx, mem, all, extra, map[]), TopView(d, v.typ, val, mem))
  {
    hide InRegisters, ShownAs, TopView, Faithful, Reg, Flattens, Blank, RunAt, ItabReadable, Bare, WellFormed, Deciding, OnesAt,
         OneWord, LowPageUnmapped, AbiWordCount;
    UnderlyingFacts(v.typ);
    var u, k := Underlying(v.typ), TopDeciding(v.typ).value;
    if !u.Ptr? { DecidingInside(u, 0); }
    ctx, mem := AllOnesBut(Reg(pw + k)), OneWord();
    BlankRegisters(Reg(pw + k));
    var run;
    val, run := BlankHeld(u, tw, ctx, mem);
    BlankItab(tw, ctx, mem);
    RegistersDiffer(pw + k, tw + k);
    RunOnes(ctx, tw, AbiWordCount(u), k, run);
    forall all, extra
      ensures !Faithful(ShownAs(d, v, pw, ctx, mem, all, extra, map[]), TopView(d, v.typ, val, mem))
    {
      WrongWord(d, v, pw, val, run, ctx, mem, all, extra);
    }
  }

  /** Either kind of variable read with its deciding word zero. */
  lemma WrongWord(d: Decoder, v: Variable, wi: nat, val: Bytes, run: Bytes, ctx: KernelFetch.PtRegs, mem: Memory,
                  all: seq<LeafData>, extra: nat)
    requires Bare(d) && Blank(ctx, mem) && WellFormed(Underlying(v.typ)) && TopDeciding(v.typ).Some?
    requires AbiWordCount(v.typ) == AbiWordCount(Underlying(v.typ)) > 0 && wi + AbiWordCount(v.typ) <= |ABI_REGS|
    requires Size(Underlying(v.typ)) <= |val| && Flattens(Underlying(v.typ), 0, val, run, 0)
    requires OnesAt(run, 8 * TopDeciding(v.typ).value) && ctx(Reg(wi + TopDeciding(v.typ).value)) == ZERO_WORD
    ensures !Faithful(ShownAs(d, v, wi, ctx, mem, all, extra, map[]), TopView(d, v.typ, val, mem))
  {
    hide ShownAs, TopView, Faithful, Reg, Flattens, Blank, Bare, WellFormed, Deciding, OnesAt;
    if Underlying(v.typ).Ptr? {
      PointerOnes(Underlying(v.typ), val, run);
      WrongPointer(d, v, wi, val, ctx, mem, all, extra);
    } else {
      WrongRegisters(d, v, wi, val, run, ctx, mem, all, extra);
    }
  }

  lemma RunOnes(ctx: KernelFetch.PtRegs, wi: nat, n: nat, k: nat, run: Bytes)
    requires k < n && RunAt(ctx, wi, n, run, 0) && ctx(Reg(wi + k)) == ONES
    ensures OnesAt(run, 8 * k)
  {
    assert RunWord(ctx, wi + k, run, 0 + 8 * k);
  }

  lemma PointerOnes(u: GoType, val: Bytes, run: Bytes)
    requires u.Ptr? && Flattens(u, 0, val, run, 0) && OnesAt(run, 0)
    ensures 8 <= |val| && val[0..8] == ONES
  {
  }

  /** If a skipped variable occupies a register, the variable is not always shown truly. */
  lemma SkipHarms(env: TypeEnv, vars: seq<Variable>, regs: seq<nat>, i: nat, args: seq<FetchArg>, rules: seq<KernelFetch.KernelRule>)
    requires WellFormedEnv(env) && i < |vars| && IsPlanned(env, vars, i) && Placed(env, vars, regs, i)
    requires WellFormed(vars[i].typ) && TopDeciding(vars[i].typ).Some? && Loaded(PlanList(env, vars, 0, 0).0, args, rules)
    requires PlannedWord(env, vars, i) < TrueWord(regs, i)
    ensures !AlwaysShown(env, vars, regs, i, args, rules)
  {
    hide PlanList, VariableHeld, TopPlain, Faithful, Loaded, PlannedWord, WellFormedEnv, Quiet, KeptBefore, IsPlanned,
         Running, TrulyShown, ShownAs, TopView, WellFormed, TopDeciding, AbiWordCount, LowPageUnmapped;
    var d := Decoder(env, _ => None, false);
    assert Bare(d);
    PlacedLast(env, vars, regs, i);
    var val, ctx, mem := MisreadShown(d, vars[i], PlannedWord(env, vars, i), TrueWord(regs, i));
    var e := Event(ctx, mem, PlanList(env, vars, 0, 0).0, rules, map[], map[]);
    BareRunning(d, vars, regs, i, val, args, e);
    NotTrulyShown(d, vars, i, val, args, e);
  }

  lemma BareRunning(d: Decoder, vars: seq<Variable>, regs: seq<nat>, i: nat, val: Bytes, args: seq<FetchArg>, e: Event)
    requires Bare(d) && WellFormedEnv(d.env) && LowPageUnmapped(e.mem) && i < |vars| == |regs|
    requires e.specs == PlanList(d.env, vars, 0, 0).0 && Loaded(e.specs, args, e.rules) && e.user == map[] && e.kernel == map[]
    requires VariableHeld(vars[i].typ, val, TrueWord(regs, i), e.ctx, e.mem)
    ensures Running(d, vars, regs, i, val, args, e)
  {
    hide PlanList, VariableHeld, TopPlain, Loaded, PlannedWord, WellFormedEnv, Quiet, KeptBefore, LowPageUnmapped;
    BarePlain(d, vars[i].typ, val, e.mem);
    QuietAtFirst(d.env, vars[i].typ, PlannedWord(d.env, vars, i), e.ctx, e.mem);
  }

  lemma NotTrulyShown(d: Decoder, vars: seq<Variable>, i: nat, val: Bytes, args: seq<FetchArg>, e: Event)
    requires Probed(d.env, vars, args, e) && i < |vars| && IsPlanned(d.env, vars, i) && e.user == map[]
    requires AbiWordCount(vars[i].typ) > 0
    requires forall all, extra ::
      !Faithful(ShownAs(d, vars[i], PlannedWord(d.env, vars, i), e.ctx, e.mem, all, extra, map[]), TopView(d, vars[i].typ, val, e.mem))
    ensures !TrulyShown(d, vars, i, val, e)
  {
    hide PlanList, Faithful, PlannedWord, KeptBefore, IsPlanned, TopView, AbiWordCount, EventOf, Probed, SliceAt, RenderLeaves, ExtraAt,
         ShownList, KernelFetch.ValidRecipes, ValueCaptures, LeavesOf;
    ShownOf(d, vars, i, args, e);
    var all, extra := EventOf(e), ExtraAt(d, vars, i, e);
    assert !Faithful(ShownAs(d, vars[i], PlannedWord(d.env, vars, i), e.ctx, e.mem, all, extra, map[]),
                     TopView(d, vars[i].typ, val, e.mem));
  }

  lemma PlacedLast(env: TypeEnv, vars: seq<Variable>, regs: seq<nat>, i: nat)
    requires i < |vars| && IsPlanned(env, vars, i) && Placed(env, vars, regs, i)
    ensures AbiWordCount(vars[i].typ) > 0 && TrueWord(regs, i) + AbiWordCount(vars[i].typ) <= |ABI_REGS|
  {
    assert TrueWord(regs, i + 1) == TrueWord(regs, i) + regs[i];
  }

  /** A planned variable is shown truly in every run if and only if no variable skipped before it
   *  occupies a register. Every display option, runtime type table, recipe table, memory and register
   *  content counts as a run; a variable all of whose parts lie too deep to be shown is left out. */
  lemma ShownTrulyIff(env: TypeEnv, vars: seq<Variable>, regs: seq<nat>, i: nat, args: seq<FetchArg>, rules: seq<KernelFetch.KernelRule>)
    requires WellFormedEnv(env) && i < |vars| && IsPlanned(env, vars, i) && Placed(env, vars, regs, i)
    requires Covered(env, vars[i].typ) && TopDeciding(vars[i].typ).Some? && Loaded(PlanList(env, vars, 0, 0).0, args, rules)
    ensures AlwaysShown(env, vars, regs, i, args, rules) <==> SkipsHarmless(env, vars, regs, i)
  {
    hide PlanList, Loaded, PlannedWord, WellFormedEnv, Running, TrulyShown, SkipsHarmless, IsPlanned;
    WordsCompare(env, vars, regs, i, i);
    if SkipsHarmless(env, vars, regs, i) {
      forall d: Decoder, val: Bytes, e: Event | d.env == env && e.rules == rules && Running(d, vars, regs, i, val, args, e)
        ensures TrulyShown(d, vars, i, val, e)
      {
        HarmlessShown(d, vars, regs, i, val, args, e);
      }
    } else {
      SkipHarms(env, vars, regs, i, args, rules);
    }
  }

  lemma HarmlessShown(d: Decoder, vars: seq<Variable>, regs: seq<nat>, i: nat, val: Bytes, args: seq<FetchArg>, e: Event)
    requires i < |vars| == |regs| && IsPlanned(d.env, vars, i) && Covered(d.env, vars[i].typ)
    requires Running(d, vars, regs, i, val, args, e) && PlannedWord(d.env, vars, i) == TrueWord(regs, i)
    ensures TrulyShown(d, vars, i, val, e)
  {
    hide PlanList, Probed, PlannedWord, IsPlanned, Covered, Process, VariableHeld, TopPlain, Undisturbed, ShowsTruly, RenderList, KeptBefore,
         KernelFetch.WithRecipes, EventOf;
    ProbedEvent(d.env, vars, args, e);
    AutoFetchFaithful(d, vars, i, val, args, e);
  }
}
