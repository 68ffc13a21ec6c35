/** One small input for each of three failures, with registers, memory, types and tables written out. */
module Witnesses {
  import opened Wrappers
  import opened Words
  import opened GoTypes
  import opened FetchRules
  import opened FetchPlan
  import opened TargetMemory
  import KernelFetch
  import opened Snapshot
  import opened Render
  import opened LiveView
  import opened TypeRecipe
  import opened AutoFetch
  import opened Faithfulness
  import opened AutoFetchTheorem
  import opened Recipes
  import opened RecipeTheorem
  import opened WholeList
  import opened WrongLeaf
  import opened Skipped
  import opened Exactness

  const INT := Scalar(IntKind, 8)

  /** A program in which an int lies behind every pointer and one runtime type is known, at address 1. */
  function Knowing(t: GoType): Decoder
  {
    Decoder((_: TypeId) => INT, (a: nat) => if a == 1 then Some(t) else None, false)
  }

  /** These words in the first four registers of the ABI. */
  function Registers(w0: nat, w1: nat, w2: nat, w3: nat): KernelFetch.PtRegs
  {
    r => if r == Reg(0) then PutUint64(w0) else if r == Reg(1) then PutUint64(w1)
         else if r == Reg(2) then PutUint64(w2) else if r == Reg(3) then PutUint64(w3) else ZERO_WORD
  }

  lemma RegistersHold(w0: nat, w1: nat, w2: nat, w3: nat)
    requires w0 < ADDRESSES && w1 < ADDRESSES && w2 < ADDRESSES && w3 < ADDRESSES
    ensures var ctx := Registers(w0, w1, w2, w3);
            && ctx(Reg(0)) == PutUint64(w0) && LittleEndian(ctx(Reg(0))) == w0
            && ctx(Reg(1)) == PutUint64(w1) && LittleEndian(ctx(Reg(1))) == w1
            && ctx(Reg(2)) == PutUint64(w2) && LittleEndian(ctx(Reg(2))) == w2
            && ctx(Reg(3)) == PutUint64(w3) && LittleEndian(ctx(Reg(3))) == w3
  {
    hide Reg, PutUint64;
    RegistersDiffer(0, 1); RegistersDiffer(0, 2); RegistersDiffer(0, 3);
    RegistersDiffer(1, 2); RegistersDiffer(1, 3); RegistersDiffer(2, 3);
    PutValue(w0); PutValue(w1); PutValue(w2); PutValue(w3);
  }

  /** A memory that holds these bytes and no others. */
  function Block(addr: nat, b: Bytes): Memory
  {
    map a: int | addr <= a < addr + |b| && InBlock(a, addr, |b|) :: b[a - addr]
  }

  predicate InBlock(a: int, addr: nat, n: nat)
  {
    addr <= a < addr + n
  }

  lemma BlockReads(addr: nat, b: Bytes, k: nat, n: nat)
    requires k + n <= |b| && addr + |b| <= ADDRESSES
    ensures ReadUser(Block(addr, b), addr + k, n) == Some(b[k..k + n])
  {
    var mem, p := Block(addr, b), addr + k;
    forall i | 0 <= i < n
      ensures At(p, i) in mem && mem[At(p, i)] == b[k + i]
    {
      assert At(p, i) == p + i && InBlock(p + i, addr, |b|);
    }
    assert ReadUser(mem, p, n).value == b[k..k + n];
  }

  lemma BlockIsReal(t: GoType, addr: nat, b: Bytes)
    requires WellFormed(t) && addr >= LOW_PAGE
    ensures Process(Knowing(t), Block(addr, b))
  {
  }

  const BASE := 0x1_0000

  // ---- an unreadable itab ----

  const NOWHERE: Memory := map[]

  /** An interface with methods that holds the int 7; its itab, at 0x10000, is not in memory. */
  function HeldInt(): Bytes
  {
    PutUint64(1) + PutUint64(7)
  }

  /** It is shown as nil although it holds 7. */
  lemma ItabExample(all: seq<LeafData>, extra: nat)
    ensures var d, ctx, v := Knowing(INT), Registers(BASE, 7, 0, 0), Variable("x", Iface(true));
            var leaves := ExecAll(ctx, NOWHERE, ValueSpecs(d.env, v.typ, v.name, 0));
            && Process(d, NOWHERE) && Covered(d.env, v.typ) && InRegisters(v.typ, 0, HeldInt(), 0, ctx, NOWHERE)
            && TopPlain(d, v.typ, HeldInt(), NOWHERE) && RealInterface(d, ctx(Reg(0)), HeldInt())
            && |leaves| == 3
            && TopView(d, v.typ, HeldInt(), NOWHERE) == Number(IntKind, PutUint64(7))
            && !Faithful(RenderLeaves(d, PlannedValue(d.env, v.typ, v.name), leaves[..2], leaves[2..], all, extra, map[]).rendered,
                         TopView(d, v.typ, HeldInt(), NOWHERE))
  {
    hide RenderLeaves, Faithful, ValueSpecs, Reg, PutUint64, TopView, ReadUint, InRegisters, ReadUser, TopPlain, RealInterface, Quiet, HeldInt, WordSpecs, RegBlobs, LittleEndian;
    var d, ctx, v := Knowing(INT), Registers(BASE, 7, 0, 0), Variable("x", Iface(true));
    RegistersHold(BASE, 7, 0, 0);
    HeldIntFacts(ctx);
    HeldIntSeen();
    QuietAtFirst(d.env, v.typ, 0, ctx, NOWHERE);
    InterfaceFaithfulIff(d, v, 0, HeldInt(), ctx, NOWHERE, all, extra, map[], map[]);
    assert !ItabReadable(ctx(Reg(0)), NOWHERE) by { NothingRead(BASE + 8); }
  }

  lemma NothingRead(addr: nat)
    ensures ReadUser(NOWHERE, addr, 8) == None
  {
    assert At(addr, 0) !in NOWHERE;
  }

  lemma HeldIntFacts(ctx: KernelFetch.PtRegs)
    requires ctx(Reg(0)) == PutUint64(BASE) && ctx(Reg(1)) == PutUint64(7)
    ensures var d := Knowing(INT);
            && |HeldInt()| == 16 && ReadUint(HeldInt()) == 1 && InRegisters(Iface(true), 0, HeldInt(), 0, ctx, NOWHERE)
            && RealInterface(d, ctx(Reg(0)), HeldInt())
  {
    hide Reg, PutUint64, HeldInt, ReadUser, LittleEndian, ReadUint;
    PutValue(BASE);
    HeldIntBytes();
    NothingRead(BASE + 8);
  }

  lemma HeldIntBytes()
    ensures var val := HeldInt();
            && |val| == 16 && val[..8] == val[0..8] == PutUint64(1) && val[8..16] == PutUint64(7) && ReadUint(val) == 1
  {
    hide ToBytes;
    PutValue(1);
    var val := HeldInt();
    assert val[..8] == PutUint64(1) && val[8..16] == PutUint64(7);
  }

  lemma HeldIntWords()
    ensures var img := Defined(HeldInt()); AllKnown(img, 0, 16) && WordAt(img, 0) == 1 && WordAt(img, 8) == 7
  {
    hide PutUint64, LittleEndian, HeldInt;
    HeldIntBytes();
    PutValue(1);
    PutValue(7);
    var val, img := HeldInt(), Defined(HeldInt());
    assert AllKnown(img, 0, 16) && Known(img, 0, 8) == val[..8] && Known(img, 8, 8) == val[8..16];
  }

  lemma HeldIntSeen()
    ensures var d := Knowing(INT);
            && TopPlain(d, Iface(true), HeldInt(), NOWHERE)
            && TopView(d, Iface(true), HeldInt(), NOWHERE) == Number(IntKind, PutUint64(7))
  {
    hide WordAt, Known, ToBytes, HeldInt, Live, LiveText;
    HeldIntWords();
    IntSeen(Knowing(INT), 7);
  }

  lemma IntSeen(d: Decoder, n: nat)
    requires n < ADDRESSES
    ensures DynamicView(d, INT, n, NOWHERE, 1) == Number(IntKind, PutUint64(n)) && PlainDynamic(d, INT, n, NOWHERE, 1)
  {
    hide ToBytes;
    var word := Defined(PutUint64(n));
    assert AllKnown(word, 0, 8) && Known(word, 0, 8) == PutUint64(n);
  }

  // ---- a one-pointer struct ----

  /** `struct{ p *int }`. */
  function PointerStruct(): GoType
  {
    Struct("P", [Field("p", true, 0, Ptr(0))], 8)
  }

  /** An empty interface that holds such a struct, pointing to an int that is zero. */
  function HeldPointer(): Bytes
  {
    PutUint64(1) + PutUint64(BASE)
  }

  /** What is shown is false, before and after the struct's type is learned. */
  lemma PointerStructExample(all: seq<LeafData>, extra: nat, user: RecipeTable)
    requires user == map[] || user == Learn(Knowing(PointerStruct()), map[], 1)
    ensures var d, ctx, mem, v := Knowing(PointerStruct()), Registers(1, BASE, 0, 0), Block(BASE, Zeros(64)), Variable("x", Iface(false));
            var leaves := ExecAll(ctx, mem, ValueSpecs(d.env, v.typ, v.name, 0));
            && Process(d, mem) && Covered(d.env, v.typ) && VariableHeld(v.typ, HeldPointer(), 0, ctx, mem)
            && |leaves| == 3
            && !Faithful(RenderLeaves(d, PlannedValue(d.env, v.typ, v.name), leaves[..2], leaves[2..], all, extra, user).rendered,
                         TopView(d, v.typ, HeldPointer(), mem))
  {
    hide RenderLeaves, Faithful, ValueSpecs, Reg, PutUint64, TopView, ReadUint, VariableHeld, ReadUser, Learned, Learn, DeepButTrue, Block, WellFormed, OnePointer;
    var d, mem, v := Knowing(PointerStruct()), Block(BASE, Zeros(64)), Variable("x", Iface(false));
    var ctx := Registers(1, BASE, 0, 0);
    RegistersHold(1, BASE, 0, 0);
    HeldPointerFacts(d.env, ctx, mem);
    LearnKeeps(d, map[], 1);
    BlockIsReal(PointerStruct(), BASE, Zeros(64)) by { PointerStructIsOne(); }
    PointerStructDeep();
    PointerStructIsOne();
    DirectStructFaithfulIff(d, v, 0, HeldPointer(), ctx, mem, all, extra, user, PointerStruct(), "P", PointerStruct().fields[0], 0);
  }

  lemma PointerStructIsOne()
    ensures WellFormed(PointerStruct()) && OnePointer(PointerStruct(), "P", PointerStruct().fields[0], 0)
  {
  }

  lemma HeldPointerFacts(env: TypeEnv, ctx: KernelFetch.PtRegs, mem: Memory)
    requires ctx(Reg(0)) == PutUint64(1) && ctx(Reg(1)) == PutUint64(BASE)
    ensures Covered(env, Iface(false)) && ReadUint(HeldPointer()) == 1 && VariableHeld(Iface(false), HeldPointer(), 0, ctx, mem)
  {
    hide Reg, ToBytes;
    PutValue(1);
    var val := HeldPointer();
    assert val[..8] == PutUint64(1) == val[0..8] && val[8..16] == PutUint64(BASE);
  }

  lemma PointerStructDeep()
    ensures !DeepButTrue(Knowing(PointerStruct()), PointerStruct().fields[0], 0, BASE, Block(BASE, Zeros(64)))
  {
    hide Block, SameTarget;
    BlockReads(BASE, Zeros(64), 0, 64);
    var copy := ReadUser(Block(BASE, Zeros(64)), BASE, 64).value;
    assert copy == Zeros(64);
    KernelFetch.ZerosAreZero(copy[..8]);
  }

  // ---- two strings ----

  /** What the planner's fetches are installed as. */
  function Rules(args: seq<FetchArg>): (rules: seq<KernelFetch.KernelRule>)
    requires KernelFetch.EncodableUpTo(args, |args|)
    ensures |rules| == |args|
  {
    seq(|args|, i requires 0 <= i < |args| => Encoded(args[i]))
  }

  function Encoded(arg: FetchArg): KernelFetch.KernelRule
    requires 0 < |arg.rules| <= MAX_FETCH_ARG_RULES
  {
    var steps := KernelFetch.RuleSteps(arg.rules);
    KernelFetch.KernelRule(
      arg.rules[|arg.rules| - 1].StackRule?,
      KernelFetch.RegisterConstant(if arg.rules[0].RegRule? then arg.rules[0].reg else ""),
      KernelFetch.Uint8(arg.size), |arg.rules| - 1,
      seq(8, j requires 0 <= j < 8 => if j < |steps| then KernelFetch.Int16(steps[j].offset) else 0),
      seq(8, j requires 0 <= j < 8 => j < |steps| && steps[j].deref),
      arg.nilCheck, arg.ifaceData, if arg.ifaceData then KernelFetch.Uint8(arg.typeIndex) else 0)
  }

  lemma EncodedIs(arg: FetchArg)
    requires 0 < |arg.rules| <= MAX_FETCH_ARG_RULES
    ensures KernelFetch.Encodes(Encoded(arg), arg)
  {
    hide KernelFetch.RuleSteps, KernelFetch.RegisterConstant, KernelFetch.Uint8, KernelFetch.Int16;
    if KernelFetch.RegisterFirst(arg.rules) {
      KernelFetch.RuleStepsOf(arg.rules);
    }
  }

  const FIELD := Field("f", true, 0, Iface(false))
  const STRINGS := TwoInterfaces("s", FIELD, "q")

  /** The header of a one-byte string. */
  function HeaderOfText(p: nat): (b: Bytes)
    ensures |b| == 64
  {
    PutUint64(p) + PutUint64(1) + Zeros(48)
  }

  function Filled(x: Byte): (b: Bytes)
    ensures |b| == 64
  {
    seq(64, _ => x)
  }

  /** Two string headers and the two texts, 64 bytes each. */
  function TwoTexts(): (b: Bytes)
    ensures |b| == 256
  {
    HeaderOfText(BASE + 128) + HeaderOfText(BASE + 192) + Filled(1) + Filled(2)
  }

  function TextsMemory(): Memory
  {
    Block(BASE, TwoTexts())
  }

  /** The fetches planned for the two variables. */
  function StringsArgs(env: TypeEnv): (args: seq<FetchArg>)
  {
    var specs := PlanList(env, STRINGS, 0, 0).0;
    seq(|specs|, i requires 0 <= i < |specs| => Marked(ToFetchArgs(specs), i))
  }

  lemma StringsPlan(env: TypeEnv)
    ensures forall s <- PlanList(env, STRINGS, 0, 0).0 :: 0 < |ToFetchArg(s).rules| <= 2
  {
    hide ValueSpecs, Kept, AbiWordCount, Holder;
    BothPlanned(env, "s", FIELD, "q");
    KeptPlan(env, STRINGS, 0, 0);
    HolderInRegisters(env, FIELD, "s");
    var rest := STRINGS[1..];
    assert rest == [Variable("q", Iface(false))] && rest[1..] == [];
    assert AbiWordCount(Holder(FIELD)) == 2 by { HolderPlannable(env, FIELD); }
    IfaceSpecs(env, rest[0], 2);
    assert AllSpecs(env, rest, 2) == ValueSpecs(env, Iface(false), "q", 2);
  }

  lemma StringsEncodable(env: TypeEnv)
    ensures KernelFetch.EncodableUpTo(StringsArgs(env), |StringsArgs(env)|)
    ensures Loaded(PlanList(env, STRINGS, 0, 0).0, StringsArgs(env), Rules(StringsArgs(env)))
  {
    hide PlanList, Marked, ToFetchArg, Encoded, KernelFetch.Encodes;
    var specs, args := PlanList(env, STRINGS, 0, 0).0, StringsArgs(env);
    StringsPlan(env);
    forall i | 0 <= i < |specs|
      ensures 0 < |args[i].rules| <= 2 && KernelFetch.Encodes(Encoded(args[i]), args[i])
    {
      MarkedFetch(specs, i);
      assert specs[i] in specs;
      EncodedIs(args[i]);
    }
  }

  /** `s.f` holds the text of ones, `q` the text of twos, and the recipe of strings is known. */
  function StringsEvent(env: TypeEnv): Event
  {
    StringsEncodable(env);
    Event(Registers(1, BASE, 1, BASE + 64), TextsMemory(), PlanList(env, STRINGS, 0, 0).0, Rules(StringsArgs(env)),
          map[1 := TextRecipe()], map[1 := [KernelFetch.KernelRelRule(64, 1, [0, 0, 0, 0, 0, 0, 0, 0],
          [true, false, false, false, false, false, false, false])]])
  }

  /** `q` is shown with the text of `s.f`. */
  lemma WrongLeafExample()
    ensures var d := Knowing(Str);
            var e := StringsEvent(d.env);
            && Process(d, e.mem) && Probed(d.env, STRINGS, StringsArgs(d.env), e)
            && |e.specs| <= MAX_FETCH_ARGS && KernelFetch.ValidRecipes(e.kernel)
            && var shown := ShownList(d, STRINGS, e);
               |shown| == 2 && shown[1] == NamedValue("q", Text([1], false))
               && TopView(d, Iface(false), e.ctx(Reg(2)) + e.ctx(Reg(3)), e.mem) == Text([2], false)
  {
    hide StringsEvent, StringsArgs, Process, Probed, TwoStrings, ShownList, TopView, Reg, StringAt, GoNames, Filled, TwoInterfaces, TextsMemory,
         KernelFetch.ValidRecipes;
    var d := Knowing(Str);
    var e := StringsEvent(d.env);
    StringsProbed();
    StringsBoth();
    StringsNames(d.env);
    TextsAt(0, 128, 1);
    TextsAt(64, 192, 2);
    WrongLeafShown(d, "s", FIELD, "q", StringsArgs(d.env), e, 1, BASE, BASE + 128, 1, Filled(1), BASE + 64, BASE + 192, 1, Filled(2));
    FirstOfFilled(1);
    FirstOfFilled(2);
  }

  lemma FirstOfFilled(x: Byte)
    ensures Filled(x)[..1] == [x]
  {
  }

  lemma StringsProbed()
    ensures var d := Knowing(Str);
            var e := StringsEvent(d.env);
            && Process(d, e.mem) && Probed(d.env, STRINGS, StringsArgs(d.env), e) && e.mem == TextsMemory()
  {
    hide Registers, PlanList, Rules, StringsArgs, Loaded, SameTable, TwoInterfaces, Block, Process, TextRecipe, TwoTexts;
    StringsEncodable(Knowing(Str).env);
    StringsTables();
    BlockIsReal(Str, BASE, TwoTexts());
  }

  lemma StringsBoth()
    ensures var d := Knowing(Str); TwoStrings(d, StringsEvent(d.env), 1, BASE, BASE + 64)
  {
    hide Registers, PlanList, Rules, StringsArgs, Reg, TwoInterfaces, TextsMemory, TextRecipe;
    RegistersHold(1, BASE, 1, BASE + 64);
  }

  lemma StringsTables()
    ensures var e := StringsEvent(Knowing(Str).env); SameTable(e.user, e.kernel)
  {
    hide PlanList, Rules, StringsArgs, TextsMemory, Registers;
  }

  lemma StringsNames(env: TypeEnv)
    ensures GoNames(env, STRINGS)
  {
    NotTyped(".f");
    assert "s"[0] == 's' && "q"[0] == 'q';
  }

  lemma TextsAt(k: nat, at: nat, x: Byte)
    requires (k, at, x) == (0, 128, 1) || (k, at, x) == (64, 192, 2)
    ensures StringAt(TextsMemory(), BASE + k, BASE + at, 1, Filled(x))
  {
    hide HeaderOfText, Filled, Block, ReadUser, LittleEndian;
    var b := TwoTexts();
    assert b[k..k + 64] == HeaderOfText(BASE + at) && b[at..at + 64] == Filled(x);
    BlockReads(BASE, b, k, 64);
    BlockReads(BASE, b, at, 64);
    HeaderReads(BASE + at);
  }

  lemma HeaderReads(p: nat)
    requires p < ADDRESSES
    ensures var b := HeaderOfText(p); ReadUint(b) == p && Signed64(ReadUint(b[8..16])) == 1
  {
    hide ToBytes;
    PutValue(p);
    PutValue(1);
    var b := HeaderOfText(p);
    assert b[..8] == PutUint64(p) && b[8..16] == PutUint64(1) == b[8..16][..8];
  }
}
