/** A list on which an interface is shown with another interface's text. */
module WrongLeaf {
  import opened Wrappers
  import opened Words
  import opened GoTypes
  import opened FetchRules
  import opened FetchPlan
  import opened TargetMemory
  import KernelFetch
  import opened Snapshot
  import opened Render
  import opened LiveView
  import opened TypeRecipe
  import opened AutoFetch
  import opened Faithfulness
  import opened AutoFetchTheorem
  import opened Recipes
  import opened RecipeTheorem
  import opened WholeList
  import opened OwnLeaves

  /** A struct with one interface in it. */
  function Holder(f: Field): GoType
  {
    Struct("T", [f], 16)
  }

  /** `func(s struct{f any}, q any)`. */
  function TwoInterfaces(s: string, f: Field, q: string): (vars: seq<Variable>)
    ensures |vars| == 2
  {
    [Variable(s, Holder(f)), Variable(q, Iface(false))]
  }

  /** The recipe compiled for a string: 64 bytes behind its data pointer. */
  function TextRecipe(): seq<RelRule>
  {
    [RelRule(AUTO_STRING_SIZE, [Step(0, true)])]
  }

  /** A string header at `a`, its `n` bytes at `p`, `text` being the 64 bytes from there on. */
  ghost predicate StringAt(mem: Memory, a: nat, p: nat, n: nat, text: Bytes)
  {
    && 0 < a < a + AUTO_STRING_SIZE < ADDRESSES && 0 < p < p + AUTO_STRING_SIZE < ADDRESSES
    && ReadUser(mem, p, AUTO_STRING_SIZE) == Some(text)
    && 0 < n <= AUTO_STRING_SIZE
    && ReadUser(mem, a, AUTO_STRING_SIZE).Some?
    && var header := ReadUser(mem, a, AUTO_STRING_SIZE).value;
       ReadUint(header) == p && Signed64(ReadUint(header[8..16])) == n
  }

  /** Both interfaces hold strings, `a` and `b` being their data words. */
  ghost predicate TwoStrings(d: Decoder, e: Event, t: nat, a: nat, b: nat)
  {
    && t != 0 && d.resolve(t) == Some(Str)
    && LittleEndian(e.ctx(Reg(0))) == t == LittleEndian(e.ctx(Reg(2)))
    && LittleEndian(e.ctx(Reg(1))) == a && LittleEndian(e.ctx(Reg(3))) == b
    && e.user.Keys == {t} == e.kernel.Keys && e.user[t] == TextRecipe()
  }

  lemma HolderInRegisters(env: TypeEnv, f: Field, name: string)
    requires f.typ == Iface(false)
    ensures var n := name + "." + f.name;
            ValueSpecs(env, Holder(f), name, 0) ==
            [WordSpec(n + ".type", 8, Reg(0)), WordSpec(n + ".data", 8, Reg(1)), BlobAt(n + ".value", MemLoc(Reg(1), [], true))]
    ensures PlannedValue(env, Holder(f), name) == Value(name, Holder(f), 2, 1)
  {
    var n := name + "." + f.name;
    var fs := [f];
    assert fs[1..] == [];
    assert FieldWordCount(fs) == 2 && FieldExtraCaptures(fs, false) == 1 + FieldExtraCaptures([], false);
    assert FieldWordSpecs(fs, name, 0) == WordSpecs(f.typ, n, 0) + FieldWordSpecs([], name, 2);
    assert FieldRegBlobs(fs, name, 0) == RegBlobs(f.typ, n, 0) + FieldRegBlobs([], name, 2);
  }

  lemma BothPlanned(env: TypeEnv, s: string, f: Field, q: string)
    requires f.typ == Iface(false)
    ensures var vars := TwoInterfaces(s, f, q);
            && Kept(env, vars, 0) == vars && |AllSpecs(env, vars, 0)| == 6
            && LeafOf(env, vars, 1) == 3 && WordOf(vars, 1) == 2
  {
    hide Holder, ValueSpecs;
    var vars := TwoInterfaces(s, f, q);
    HolderInRegisters(env, f, s);
    HolderPlannable(env, f);
    var rest := vars[1..];
    assert rest == [vars[1]] && rest[1..] == [];
    assert Kept(env, rest, 3) == rest by {
      assert PlannedValue(env, Iface(false), "").LeafCount() == 3;
      assert [vars[1]] + [] == [vars[1]];
    }
    IfaceSpecs(env, vars[1], 2);
    assert AllSpecs(env, rest, 2) == ValueSpecs(env, Iface(false), q, 2) + [];
    assert LeafOf(env, rest, 0) == 0 && WordOf(rest, 0) == 0;
  }

  lemma HolderPlannable(env: TypeEnv, f: Field)
    requires f.typ == Iface(false)
    ensures Plannable(env, Holder(f), 0) && AbiWordCount(Holder(f)) == 2
  {
    HolderInRegisters(env, f, "");
  }

  /** What the probe owes the interface in the struct: the text behind `a`. */
  lemma StructsLeaf(env: TypeEnv, s: string, f: Field, e: Event, t: nat, a: nat, p: nat, n: nat, text: Bytes)
    requires f.typ == Iface(false) && Sent(e) && GroupAt(env, e.specs, 0, Variable(s, Holder(f)), 0) && |e.specs| == 6
    requires LittleEndian(e.ctx(Reg(0))) == t != 0 && LittleEndian(e.ctx(Reg(1))) == a
    requires e.user.Keys == {t} == e.kernel.Keys && e.user[t] == TextRecipe() && StringAt(e.mem, a, p, n, text)
    ensures |EventOf(e)| > 6 && EventOf(e)[6] == KernelFetch.ArgData(text, false, false)
  {
    hide ValueSpecs, Stem, DotFree, TypelessVar, IsTypeName, HasSuffix, TrimSuffix, Marked, KernelFetch.Uint8, Holder, StringAt,
         KernelFetch.RelLeaf, GroupAt, Reg, Exec, SameTable, KernelFetch.RecipeLeaves, PlannedValue, TextRecipe, Owed;
    RulesCount(e.specs, e.rules);
    var v, name := Variable(s, Holder(f)), s + "." + f.name;
    HolderInRegisters(env, f, s);
    var group := ValueSpecs(env, v.typ, v.name, 0);
    assert NoneTyped(group[1..]) by { LeafNotTyped(name); }
    PairMarked(env, e, 0, v, 0, 0, name);
    MarkInside(env, e.specs, 0, v, 0, 0);
    GroupName(env, e.specs, 0, v, 0, 0);
    GroupName(env, e.specs, 0, v, 0, 1);
    NotDataSuffix(name);
    assert !e.rules[0].ifaceData;
    NothingOwed(e, 0, 1);
    SlotOwed(e, 0);
    OwedJoin(e, 0, 1, 2);
    OwedJoin(e, 0, 2, |e.rules|);
    WordLeaf(e, 0);
    WordLeaf(e, 1);
    TextLeaf(e, t, a, p, n, text);
  }

  /** The word of a register's leaf. */
  lemma WordLeaf(e: Event, i: nat)
    requires i < |e.specs| && e.specs[i].WordSpec?
    ensures KernelFetch.LoadArgWord(Generic(e), i) == LittleEndian(e.ctx(e.specs[i].reg))
  {
    var leaf := Exec(e.ctx, e.mem, e.specs[i]);
    assert leaf.data[..8] == e.ctx(e.specs[i].reg);
  }

  lemma TextLeaf(e: Event, t: nat, a: nat, p: nat, n: nat, text: Bytes)
    requires Sent(e) && t in e.user && t in e.kernel && e.user[t] == TextRecipe() && StringAt(e.mem, a, p, n, text)
    ensures KernelFetch.RecipeLeaves(e.mem, a, e.kernel[t]) == [KernelFetch.ArgData(text, false, false)]
  {
    var rule := e.user[t][0];
    assert EncodesRel(e.kernel[t][0], rule) && Fits(rule);
    FittingRule(e.kernel[t][0], rule);
    TextFetched(e.mem, a, p, n, text);
  }

  lemma TextFetched(mem: Memory, a: nat, p: nat, n: nat, text: Bytes)
    requires StringAt(mem, a, p, n, text)
    ensures KernelFetch.FetchAt(mem, a, [Step(0, true)], AUTO_STRING_SIZE, true) == KernelFetch.ArgData(text, false, false)
  {
    HeaderWord(mem, a, 0);
    var header := ReadUser(mem, a, AUTO_STRING_SIZE).value;
    assert header[0..8] == header[..8];
    var step := [Step(0, true)];
    assert step[1..] == [];
    assert KernelFetch.Walk(mem, a, step) == KernelFetch.Walk(mem, p, []) == Some(p);
    assert text + Zeros(0) == text;
  }

  lemma HeaderWord(mem: Memory, a: nat, k: nat)
    requires ReadUser(mem, a, AUTO_STRING_SIZE).Some? && k + 8 <= AUTO_STRING_SIZE
    ensures var header := ReadUser(mem, a, AUTO_STRING_SIZE).value;
            ReadUser(mem, a + k, 8) == Some(header[k..k + 8])
  {
    var header, p := ReadUser(mem, a, AUTO_STRING_SIZE).value, a + k;
    forall i | 0 <= i < 8
      ensures At(p, i) == At(a, k + i) && At(p, i) in mem
    {
      assert At(a, k + i) in mem;
    }
    assert ReadUser(mem, p, 8).value == header[k..k + 8];
  }

  /** The snapshot of an interface holding a string, with a foreign text bound behind it. */
  lemma ForeignText(d: Decoder, header: Bytes, blob: LeafData, all: seq<LeafData>, extra: nat, user: RecipeTable,
                    t: nat, mem: Memory, b: nat, p: nat, n: nat, text: Bytes, foreign: Bytes)
    requires |header| == 16 && ReadUint(header) == t != 0 && ReadUint(header[8..]) == b && d.resolve(t) == Some(Str)
    requires t in user && user[t] == TextRecipe() && StringAt(mem, b, p, n, text) && !(b <= p < b + AUTO_STRING_SIZE)
    requires extra < |all| && all[extra] == KernelFetch.ArgData(foreign, false, false) && |foreign| == AUTO_STRING_SIZE
    requires blob == KernelFetch.ArgData(ReadUser(mem, b, AUTO_STRING_SIZE).value, false, false)
    ensures var chunks := ApplyExtras(user, t, b, all, Binding(BindIface(header, [blob]), extra)).chunks;
            && chunks == [Chunk(b, blob.data), Chunk(p, foreign)]
            && RenderValue(d, Iface(false), header, 0, chunks, 0) == Text(foreign[..n], false)
  {
    var first, second := Chunk(b, blob.data), Chunk(p, foreign);
    var chunks := [first, second];
    BindsForeign(header, blob, all, extra, user, t, b, p, foreign);
    ReadsBoth(first, second);
    StringFromChunks(d, chunks, header, t, b, p, n, blob.data, foreign);
  }

  lemma ReadsBoth(first: Chunk, second: Chunk)
    requires 0 < first.addr < first.addr + |first.data| < ADDRESSES && 0 < second.addr < second.addr + |second.data| < ADDRESSES
    requires !(first.addr <= second.addr < first.addr + |first.data|)
    ensures forall n: nat | n <= |first.data| :: Read([first, second], first.addr, n) == Some(first.data[..n])
    ensures forall n: nat | n <= |second.data| :: Read([first, second], second.addr, n) == Some(second.data[..n])
  {
    var chunks := [first, second];
    assert chunks[1..] == [second];
    forall n: nat | n <= |second.data|
      ensures Read(chunks, second.addr, n) == Some(second.data[..n])
    {
      assert Read(chunks, second.addr, n) == Read([second], second.addr, n);
    }
  }

  lemma BindsForeign(header: Bytes, blob: LeafData, all: seq<LeafData>, extra: nat, user: RecipeTable, t: nat, b: nat, p: nat, foreign: Bytes)
    requires |header| == 16 && t != 0 && ReadUint(header[8..]) == b && t in user && user[t] == TextRecipe()
    requires 0 < b < b + AUTO_STRING_SIZE < ADDRESSES && 0 < p && |foreign| == AUTO_STRING_SIZE == |blob.data|
    requires !blob.isNil && !blob.readError && ReadUint(blob.data) == p
    requires extra < |all| && all[extra] == KernelFetch.ArgData(foreign, false, false)
    ensures ApplyExtras(user, t, b, all, Binding(BindIface(header, [blob]), extra)).chunks == [Chunk(b, blob.data), Chunk(p, foreign)]
  {
    hide Read, BindRecipe, EvalRel;
    var bound := [Chunk(b, blob.data)];
    assert BindIface(header, [blob]) == bound;
    BindsOne(bound, all, extra, b, p, blob.data);
    assert bound + Put(p, all[extra]) == [Chunk(b, blob.data), Chunk(p, foreign)];
  }

  /** Binding the one leaf of a string's recipe: at the pointer in the header's copy. */
  lemma BindsOne(bound: seq<Chunk>, all: seq<LeafData>, extra: nat, b: nat, p: nat, own: Bytes)
    requires bound == [Chunk(b, own)] && |own| == AUTO_STRING_SIZE && ReadUint(own) == p
    requires 0 < b < b + AUTO_STRING_SIZE < ADDRESSES && extra < |all|
    ensures BindRecipe(TextRecipe(), b, all, Binding(bound, extra)) == Binding(bound + Put(p, all[extra]), extra + 1)
  {
    hide EvalRel, Read, Put;
    var rules := TextRecipe();
    assert rules[0].steps == [Step(0, true)] && rules[1..] == [];
    HeaderLeads(bound, b, p, own);
    var next := Binding(bound + Put(p, all[extra]), extra + 1);
    assert BindRecipe(rules[1..], b, all, next) == next;
  }

  lemma HeaderLeads(bound: seq<Chunk>, b: nat, p: nat, own: Bytes)
    requires bound == [Chunk(b, own)] && |own| == AUTO_STRING_SIZE && ReadUint(own) == p
    requires 0 < b < b + AUTO_STRING_SIZE < ADDRESSES
    ensures EvalRel(b, [Step(0, true)], bound) == p
  {
    hide Read, ReadUint;
    HeaderRead(bound[0]);
    var steps := [Step(0, true)];
    assert steps[1..] == [];
    assert (b + 0) % ADDRESSES == b;
    assert EvalRel(p, [], bound) == p;
  }

  lemma HeaderRead(c: Chunk)
    requires 0 < c.addr < c.addr + |c.data| < ADDRESSES && |c.data| == AUTO_STRING_SIZE
    ensures var read := Read([c], c.addr, 8); read.Some? && LittleEndian(read.value) == ReadUint(c.data)
  {
    assert [c][0] == c && Covers(c, c.addr);
    assert c.data[0..8] == c.data[..8];
  }

  lemma StringFromChunks(d: Decoder, chunks: seq<Chunk>, header: Bytes, t: nat, b: nat, p: nat, n: nat, own: Bytes, foreign: Bytes)
    requires |header| == 16 && ReadUint(header) == t != 0 && ReadUint(header[8..]) == b != 0 && d.resolve(t) == Some(Str)
    requires |own| == AUTO_STRING_SIZE == |foreign| && 0 < n <= AUTO_STRING_SIZE
    requires ReadUint(own) == p && Signed64(ReadUint(own[8..16])) == n
    requires Read(chunks, b, 16) == Some(own[..16]) && Read(chunks, p, n) == Some(foreign[..n])
    ensures RenderValue(d, Iface(false), header, 0, chunks, 0) == Text(foreign[..n], false)
  {
    var value := own[..16];
    assert value[..8] == own[..8] && value[8..16] == own[8..16];
    assert RenderDynamic(d, Str, b, chunks, 1) == RenderValue(d, Str, value, b, chunks, 1);
    assert RenderValue(d, Str, value, b, chunks, 1) == Text(foreign[..n], false);
  }

  /** What the second interface really holds. */
  lemma StringTruth(d: Decoder, header: Bytes, t: nat, mem: Memory, b: nat, p: nat, n: nat, text: Bytes)
    requires |header| == 16 && ReadUint(header) == t != 0 && ReadUint(header[8..]) == b && d.resolve(t) == Some(Str)
    requires StringAt(mem, b, p, n, text)
    ensures TopView(d, Iface(false), header, mem) == Text(text[..n], false)
  {
    var img := Defined(header);
    assert Known(img, 0, 8) == header[..8] && Known(img, 8, 8) == header[8..][..8];
    assert AllKnown(img, 0, 16) && WordAt(img, 0) == t && WordAt(img, 8) == b;
    assert TopView(d, Iface(false), header, mem) == DynamicView(d, Str, b, mem, 1);
    LiveString(d, mem, b, p, n, text);
  }

  lemma LiveString(d: Decoder, mem: Memory, b: nat, p: nat, n: nat, text: Bytes)
    requires StringAt(mem, b, p, n, text)
    ensures DynamicView(d, Str, b, mem, 1) == Text(text[..n], false)
  {
    var live := Live(mem, b, 16);
    var own := ReadUser(mem, b, AUTO_STRING_SIZE).value;
    forall i | 0 <= i < 16
      ensures live[i] == Some(own[i])
    {
    }
    assert Known(live, 0, 8) == own[..8] && Known(live, 8, 8) == own[8..16];
    assert own[8..16][..8] == own[8..16];
    assert AllKnown(live, 0, 16) && WordAt(live, 0) == p && Signed64(WordAt(live, 8)) == n;
    TextPart(mem, p, n, text);
    assert View(d, Str, live, mem, 1) == LiveText(mem, p, n).GetOr(Unavailable);
  }

  lemma TextPart(mem: Memory, p: nat, n: nat, text: Bytes)
    requires ReadUser(mem, p, AUTO_STRING_SIZE) == Some(text) && n <= AUTO_STRING_SIZE
    ensures ReadUser(mem, p, n) == Some(text[..n])
  {
    assert ReadUser(mem, p, n).value == text[..n];
  }

  /** The blob of the second interface: the 64 bytes at its data word. */
  lemma HeaderBlob(e: Event, name: string, reg: string, b: nat)
    requires LittleEndian(e.ctx(reg)) == b != 0 && ReadUser(e.mem, b, AUTO_STRING_SIZE).Some?
    ensures Exec(e.ctx, e.mem, BlobAt(name, MemLoc(reg, [], true)))
         == KernelFetch.ArgData(ReadUser(e.mem, b, AUTO_STRING_SIZE).value, false, false)
  {
    WordBound(e.ctx(reg));
    var steps := KernelFetch.Int16Steps([Step(0, false)]);
    assert steps[1..] == [] && steps[0] == Step(0, false);
    assert KernelFetch.Walk(e.mem, b, steps) == KernelFetch.Walk(e.mem, b % ADDRESSES, []);
    var own := ReadUser(e.mem, b, AUTO_STRING_SIZE).value;
    assert own + Zeros(0) == own;
  }

  /** The second interface as the decoder renders it. */
  lemma SecondShown(d: Decoder, q: string, e: Event, all: seq<LeafData>, extra: nat, t: nat, b: nat, p: nat, n: nat,
                    text: Bytes, foreign: Bytes)
    requires d.resolve(t) == Some(Str) && t != 0 && t in e.user && e.user[t] == TextRecipe()
    requires LittleEndian(e.ctx(Reg(2))) == t && LittleEndian(e.ctx(Reg(3))) == b
    requires StringAt(e.mem, b, p, n, text) && !(b <= p < b + AUTO_STRING_SIZE)
    requires extra < |all| && all[extra] == KernelFetch.ArgData(foreign, false, false) && |foreign| == AUTO_STRING_SIZE
    ensures var leaves := ExecAll(e.ctx, e.mem, ValueSpecs(d.env, Iface(false), q, 2));
            && |leaves| == 3
            && RenderLeaves(d, PlannedValue(d.env, Iface(false), q), leaves[..2], leaves[2..], all, extra, e.user).rendered
            == Text(foreign[..n], false)
  {
    hide ReadUser, Reg, RenderValue, StringAt, Exec, ApplyExtras, TextRecipe, BindIface;
    var leaves := ExecAll(e.ctx, e.mem, ValueSpecs(d.env, Iface(false), q, 2));
    assert ReadUser(e.mem, b, AUTO_STRING_SIZE).Some? && b != 0 by { StringReadable(e.mem, b, p, n, text); }
    SecondLeaves(d.env, q, e, b);
    var header := ConcatLeaves(leaves[..2]);
    assert leaves[2..] == [leaves[2]];
    ForeignText(d, header, leaves[2], all, extra, e.user, t, e.mem, b, p, n, text, foreign);
  }

  lemma StringReadable(mem: Memory, b: nat, p: nat, n: nat, text: Bytes)
    requires StringAt(mem, b, p, n, text)
    ensures ReadUser(mem, b, AUTO_STRING_SIZE).Some? && b != 0
  {
  }

  lemma SecondLeaves(env: TypeEnv, q: string, e: Event, b: nat)
    requires LittleEndian(e.ctx(Reg(3))) == b != 0 && ReadUser(e.mem, b, AUTO_STRING_SIZE).Some?
    ensures var leaves := ExecAll(e.ctx, e.mem, ValueSpecs(env, Iface(false), q, 2));
            && |leaves| == 3 && !leaves[0].isNil && !leaves[0].readError && !leaves[1].readError
            && ReadUint(leaves[0].data) == LittleEndian(e.ctx(Reg(2)))
            && |ConcatLeaves(leaves[..2])| == 16 && ConcatLeaves(leaves[..2]) == e.ctx(Reg(2)) + e.ctx(Reg(3))
            && ReadUint(ConcatLeaves(leaves[..2])) == LittleEndian(e.ctx(Reg(2)))
            && ReadUint(ConcatLeaves(leaves[..2])[8..]) == b
            && leaves[2] == KernelFetch.ArgData(ReadUser(e.mem, b, AUTO_STRING_SIZE).value, false, false)
  {
    hide ReadUser, Reg;
    var leaves := ExecAll(e.ctx, e.mem, ValueSpecs(env, Iface(false), q, 2));
    IfaceSpecs(env, Variable(q, Iface(false)), 2);
    HeaderBlob(e, q + ".value", Reg(3), b);
    IfaceWords(leaves[..2]);
    assert leaves[0].data[..8] == e.ctx(Reg(2)) && leaves[1].data[..8] == e.ctx(Reg(3));
    var tail := leaves[..2][1..];
    assert tail[1..] == [] && ConcatLeaves(tail) == e.ctx(Reg(3)) + [];
  }

  /** For `func(s struct{f any}, q any)` with a string in either interface: `q` is shown with the text
   *  of `s.f`, which is not its own unless the two texts agree. */
  lemma WrongLeafShown(d: Decoder, s: string, f: Field, q: string, args: seq<FetchArg>, e: Event, t: nat,
                       a: nat, pa: nat, na: nat, theirs: Bytes, b: nat, pb: nat, nb: nat, own: Bytes)
    requires f.typ == Iface(false) && GoNames(d.env, TwoInterfaces(s, f, q))
    requires Probed(d.env, TwoInterfaces(s, f, q), args, e) && TwoStrings(d, e, t, a, b)
    requires StringAt(e.mem, a, pa, na, theirs) && StringAt(e.mem, b, pb, nb, own) && !(b <= pb < b + AUTO_STRING_SIZE)
    ensures |e.specs| <= MAX_FETCH_ARGS && KernelFetch.ValidRecipes(e.kernel)
    ensures var shown := ShownList(d, TwoInterfaces(s, f, q), e);
            var truth := TopView(d, Iface(false), e.ctx(Reg(2)) + e.ctx(Reg(3)), e.mem);
            && |shown| == 2
            && shown[1] == NamedValue(q, Text(theirs[..nb], false))
            && truth == Text(own[..nb], false)
            && (Faithful(shown[1].value, truth) <==> theirs[..nb] == own[..nb])
  {
    hide PlanList, EventOf, Reg, StringAt, TopView, RenderLeaves, Probed, Kept, AllSpecs, LeafOf, WordOf, TailAt, LaidOut, GroupAt, GoNames, ValueSpecs,
         Sent, RenderList, CursorAt, TextRecipe, Holder, TwoInterfaces, PlannedValue;
    var vars := TwoInterfaces(s, f, q);
    ProbedEvent(d.env, vars, args, e);
    BothPlanned(d.env, s, f, q);
    KeptPlan(d.env, vars, 0, 0);
    SecondFromCursor(d, s, f, q, e);
    StructsLeaf(d.env, s, f, e, t, a, pa, na, theirs);
    TextLength(e.mem, a, pa, na, theirs);
    SecondShown(d, q, e, EventOf(e), 6, t, b, pb, nb, own, theirs);
    RegisterPair(e.ctx);
    StringTruth(d, e.ctx(Reg(2)) + e.ctx(Reg(3)), t, e.mem, b, pb, nb, own);
  }

  lemma TextLength(mem: Memory, a: nat, p: nat, n: nat, text: Bytes)
    requires StringAt(mem, a, p, n, text)
    ensures |text| == AUTO_STRING_SIZE
  {
  }

  lemma RegisterPair(ctx: KernelFetch.PtRegs)
    ensures var header := ctx(Reg(2)) + ctx(Reg(3));
            ReadUint(header) == LittleEndian(ctx(Reg(2))) && ReadUint(header[8..]) == LittleEndian(ctx(Reg(3)))
  {
    hide Reg;
    var header := ctx(Reg(2)) + ctx(Reg(3));
    assert header[..8] == ctx(Reg(2)) && header[8..][..8] == ctx(Reg(3));
  }

  /** The struct takes no recipe leaf, so the second interface starts at the struct's. */
  lemma SecondFromCursor(d: Decoder, s: string, f: Field, q: string, e: Event)
    requires var vars := TwoInterfaces(s, f, q);
             && Sent(e) && TailAt(d.env, e.specs, 0, vars, 0) && |e.specs| == 6
             && LeafOf(d.env, vars, 1) == 3 && WordOf(vars, 1) == 2
    ensures KernelFetch.ValidRecipes(e.kernel) && GroupAt(d.env, e.specs, 0, Variable(s, Holder(f)), 0)
    ensures var vars := TwoInterfaces(s, f, q);
            var leaves := ExecAll(e.ctx, e.mem, ValueSpecs(d.env, Iface(false), q, 2));
            && |leaves| == 3
            && var shown := RenderLeaves(d, PlannedValue(d.env, Iface(false), q), leaves[..2], leaves[2..], EventOf(e), 6, e.user);
               RenderList(d, AllValues(d.env, vars), EventOf(e), 0, 6, e.user)[1] == NamedValue(q, shown.rendered)
  {
    hide EventOf, RenderLeaves, LeafOf, WordOf, TailAt, GroupAt, ValueSpecs, Sent, RenderList, CursorAfter, AllValues, Holder;
    var vars := TwoInterfaces(s, f, q);
    TailInside(d.env, e.specs, 0, vars, 0);
    CursorMoves(d, vars, 0, e);
    FirstPlace(d.env, vars);
    HolderIsStruct(f);
    CursorAtStart(d, vars, e);
    StructTakesNone(d, vars[0], 0, e, 6);
    ShownOfKept(d, vars, 1, e);
  }

  lemma HolderIsStruct(f: Field)
    ensures Underlying(Holder(f)).Struct?
  {
  }

  lemma FirstPlace(env: TypeEnv, vars: seq<Variable>)
    requires vars != []
    ensures LeafOf(env, vars, 0) == 0 && WordOf(vars, 0) == 0
  {
  }
}
