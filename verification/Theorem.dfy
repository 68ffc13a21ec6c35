/** The main theorem of auto-fetch for one variable. */
module AutoFetchTheorem {
  import opened Wrappers
  import opened Words
  import opened GoTypes
  import opened FetchRules
  import opened FetchPlan
  import opened TargetMemory
  import KernelFetch
  import opened Scatter
  import opened Snapshot
  import opened Render
  import opened LiveView
  import opened TypeRecipe
  import opened AutoFetch
  import opened Faithfulness

  /** What a variable with these bytes means at the top level: a pointer to a struct is followed
   *  once, any other pointer is shown as an address. */
  function TopView(d: Decoder, t: GoType, val: Bytes, mem: Memory): Rendered
  {
    var u := Underlying(t);
    if !u.Ptr? then RegisterView(d, u, val, mem)
    else if ReadUint(val) == 0 then Nil
    else if !IsCapturedStruct(d.env(u.target)) then Address(ReadUint(val))
    else Ref(View(d, d.env(u.target), ObjectImage(d, u.target, ReadUint(val), mem), mem, 0))
  }

  /** What a value held in registers means. */
  function RegisterView(d: Decoder, u: GoType, val: Bytes, mem: Memory): Rendered
  {
    View(d, AsHeld(u), Defined(val), mem, 0)
  }

  predicate RegisterPlain(d: Decoder, u: GoType, val: Bytes, mem: Memory)
  {
    PlainReached(d, AsHeld(u), Defined(val), mem, 0) && RegisterTypes(d, u, Defined(val), mem)
  }

  /** The variable leads to no interface holding a struct that only looks direct, and no word on the
   *  way is taken for what it is not: an itab for a type or a type for an itab. */
  predicate TopPlain(d: Decoder, t: GoType, val: Bytes, mem: Memory)
  {
    var u := Underlying(t);
    if !u.Ptr? then RegisterPlain(d, u, val, mem)
    else ReadUint(val) != 0 && IsCapturedStruct(d.env(u.target)) ==>
           PlainReached(d, d.env(u.target), ObjectImage(d, u.target, ReadUint(val), mem), mem, 0)
  }

  /** The live bytes of an object. */
  function ObjectImage(d: Decoder, id: TypeId, addr: nat, mem: Memory): Image
  {
    var size := Size(d.env(id));
    Live(mem, addr, if size < 0 then 0 else size)
  }

  /** The variable is one the theorem speaks about: a Go type whose pointee, if it is a pointer,
   *  holds no interface with methods. */
  predicate Covered(env: TypeEnv, t: GoType)
  {
    && WellFormed(t)
    && AbiWordCount(t) > 0
    && Size(t) <= LOW_PAGE
    && (Underlying(t).Ptr? ==> NoItabs(env(Underlying(t).target)))
  }

  /** The registers from word `wi` on hold the variable's value. */
  predicate VariableHeld(t: GoType, val: Bytes, wi: nat, ctx: KernelFetch.PtRegs, mem: Memory)
  {
    && Size(t) <= |val|
    && InRegisters(Underlying(t), 0, val, wi, ctx, mem)
    && (Underlying(t) == Iface(true) ==> ItabReadable(ctx(Reg(wi)), mem))
  }

  /** A top-level interface's itab is nil or can be read at the probe. */
  predicate ItabReadable(itab: Word, mem: Memory)
  {
    LittleEndian(itab) == 0 || ReadUser(mem, (LittleEndian(itab) + 8) % ADDRESSES, 8).Some?
  }

  /** No interface in the object that starts with these bytes has a type with recipe rules. */
  predicate NoneKnown(user: RecipeTable, t: GoType, data: Bytes)
    decreases t
  {
    match t
    case Named(b) => NoneKnown(user, b, data)
    case Iface(_) => !HasRules(user, Snapshot.FirstWord(data))
    case Struct(_, fields, _) => forall f <- fields :: NoneKnown(user, f.typ, FieldMem(data, f.offset))
    case _ => true
  }

  /** No rules are known for an interface that the variable is or that lies in its object. */
  predicate Quiet(env: TypeEnv, t: GoType, wi: nat, ctx: KernelFetch.PtRegs, mem: Memory, user: RecipeTable)
  {
    match Underlying(t)
    case Iface(nonEmpty) => !HasRules(user, ReadUint(Exec(ctx, mem, TypeWordSpec("", nonEmpty, Reg(wi))).data))
    case Ptr(id) =>
      IsCapturedStruct(env(id)) ==> NoneKnown(user, env(id), Exec(ctx, mem, BlobAt("", MemLoc(Reg(wi), [], true))).data)
    case _ => true
  }

  lemma {:induction false} NothingLearned(t: GoType, data: Bytes)
    ensures NoneKnown(map[], t, data)
    decreases t
  {
    match t
    case Named(b) => NothingLearned(b, data);
    case Struct(_, fields, _) =>
      forall f | f in fields
        ensures NoneKnown(map[], f.typ, FieldMem(data, f.offset))
      {
        NothingLearned(f.typ, FieldMem(data, f.offset));
      }
    case _ =>
  }

  /** What `learnInterfaceTypes` makes of one type word, once its recipe is installed. */
  function Learn(d: Decoder, user: RecipeTable, typeAddr: nat): RecipeTable
  {
    if typeAddr == 0 || typeAddr in user || d.resolve(typeAddr).None? then user
    else user[typeAddr := CompileTypeRecipe(d.env, d.resolve(typeAddr).value)]
  }

  /** Every recipe in the table is the compiled one of its type. */
  ghost predicate Learned(d: Decoder, user: RecipeTable)
  {
    forall a <- user :: d.resolve(a).Some? && user[a] == CompileTypeRecipe(d.env, d.resolve(a).value)
  }

  /** Learning starts from such a table and keeps it one; what is learned stays, and a type that can be
   *  looked up is known from then on. */
  lemma LearnKeeps(d: Decoder, user: RecipeTable, typeAddr: nat)
    ensures Learned(d, map[])
    ensures Learned(d, user) ==> Learned(d, Learn(d, user, typeAddr))
    ensures forall a | a in user :: a in Learn(d, user, typeAddr) && Learn(d, user, typeAddr)[a] == user[a]
    ensures typeAddr in Learn(d, user, typeAddr) <==> typeAddr in user || (typeAddr != 0 && d.resolve(typeAddr).Some?)
  {
  }

  /** A recipe without rules binds nothing. */
  lemma NoExtras(user: RecipeTable, typeAddr: nat, dataPtr: nat, all: seq<LeafData>, b: Binding)
    requires !HasRules(user, typeAddr)
    ensures ApplyExtras(user, typeAddr, dataPtr, all, b) == b
  {
  }

  /** Before the first recipe is learned every variable is quiet. */
  lemma QuietAtFirst(env: TypeEnv, t: GoType, wi: nat, ctx: KernelFetch.PtRegs, mem: Memory)
    ensures Quiet(env, t, wi, ctx, mem, map[])
  {
    if Underlying(t).Ptr? {
      NothingLearned(env(Underlying(t).target), Exec(ctx, mem, BlobAt("", MemLoc(Reg(wi), [], true))).data);
    }
  }

  ghost predicate Process(d: Decoder, mem: Memory)
  {
    WellFormedEnv(d.env) && ResolverOk(d) && LowPageUnmapped(mem)
  }

  lemma {:induction false} NamesAreTransparent(d: Decoder, t: GoType, data: Bytes, chunks: seq<Chunk>, words: Bytes,
                                               captures: seq<LeafData>)
    ensures RenderValue(d, t, data, 0, chunks, 0) == RenderValue(d, Underlying(t), data, 0, chunks, 0)
    ensures ConsumeReg(t, data, captures) == ConsumeReg(Underlying(t), data, captures)
    ensures ScatteredImage(t, words) == ScatteredImage(Underlying(t), words)
    decreases t
  {
    if t.Named? {
      NamesAreTransparent(d, t.base, data, chunks, words, captures);
    }
  }

  lemma {:induction false} PositiveSize(t: GoType)
    requires WellFormed(t) && AbiWordCount(t) > 0
    ensures Size(t) > 0
    decreases t
  {
    match t
    case Named(b) => PositiveSize(b);
    case Struct(_, fields, size) =>
      SupportedFields(fields);
      assert fields[0] in fields && FieldFits(fields[0], size);
      PositiveSize(fields[0].typ);
    case _ =>
  }

  /** The leaves of a value split into its words and its captures. */
  lemma ExecSplit(ctx: KernelFetch.PtRegs, mem: Memory, a: seq<ArgSpec>, b: seq<ArgSpec>)
    ensures var leaves := ExecAll(ctx, mem, a + b);
            leaves[..|a|] == ExecAll(ctx, mem, a) && leaves[|a|..] == ExecAll(ctx, mem, b)
  {
  }

  /** What the registers hold, seen through the header assembled from the fetched words. */
  lemma HeaderFaithful(u: GoType, name: string, wi: nat, val: Bytes, ctx: KernelFetch.PtRegs, mem: Memory, words: seq<LeafData>)
    requires WellFormed(u) && AbiWordCount(u) > 0 && wi + AbiWordCount(u) <= |ABI_REGS|
    requires InRegisters(u, 0, val, wi, ctx, mem) && Size(u) <= |val|
    requires words == ExecAll(ctx, mem, WordSpecs(u, name, wi)) && forall w <- words :: !w.readError
    ensures var header := ConcatLeaves(words);
            && |header| == 8 * AbiWordCount(u)
            && WordsAre(ctx, mem, WordSpecs(u, name, wi), header, 0)
            && Flattens(u, 0, val, header, 0)
  {
    WordSpecsCount(u, name, wi);
    HeaderWords(ctx, mem, WordSpecs(u, name, wi), words);
    WordsFlatten(u, name, 0, val, wi, ctx, mem, ConcatLeaves(words), 0);
  }

  /** Rendering bytes that agree with a value held in registers, over a true snapshot. */
  lemma HeldFaithful(d: Decoder, u: GoType, data: Bytes, val: Bytes, chunks: seq<Chunk>, mem: Memory)
    requires Process(d, mem) && Sound(chunks, mem) && WellFormed(u) && Agrees(u, data, Defined(val))
    requires Size(u) <= LOW_PAGE && Size(u) <= |val| && 0 < |data| && Aligned(u, data)
    requires RegisterPlain(d, u, val, mem)
    ensures Faithful(RenderValue(d, u, data, 0, chunks, 0), RegisterView(d, u, val, mem))
  {
    hide RenderValue, View, Faithful, Agrees, WellFormed, PlainReached, RegisterTypes, AsHeld, Size, HasPtr, Sound;
    HeldLayout(u);
    HeldWellFormed(u);
    AgreesHeld(u, data, Defined(val));
    RenderFaithful(d, AsHeld(u), data, 0, Defined(val), chunks, mem, 0);
    RenderHeld(d, u, data, 0, Defined(val), chunks, mem, 0);
  }

  /** Rendering an image that carries the same words as the value, over its own captures. */
  lemma ImageFaithful(d: Decoder, u: GoType, name: string, wi: nat, val: Bytes, img: Bytes, words: Bytes,
                      ctx: KernelFetch.PtRegs, mem: Memory)
    requires Process(d, mem) && WellFormed(u) && 0 < AbiWordCount(u) && wi + AbiWordCount(u) <= |ABI_REGS|
    requires Size(u) <= LOW_PAGE && Size(u) <= |val| && 0 < Size(u) <= |img|
    requires WordsAre(ctx, mem, WordSpecs(u, name, wi), words, 0)
    requires Flattens(u, 0, val, words, 0) && Flattens(u, 0, img, words, 0)
    requires RegisterPlain(d, u, val, mem)
    ensures |RegAddrs(u, img)| == |RegBlobs(u, name, wi)|
    ensures var chunks := Puts(RegAddrs(u, img), ExecAll(ctx, mem, RegBlobs(u, name, wi)));
            Faithful(RenderValue(d, u, img, 0, chunks, 0), RegisterView(d, u, val, mem))
  {
    assert FieldMem(img, 0) == img && Drop(Defined(val), 0) == Defined(val);
    RegPathsAgree(u, name, wi, 0, img, ctx, mem, words, 0);
    RegCapturesSound(ctx, mem, RegBlobs(u, name, wi), RegAddrs(u, img));
    BothFlatten(u, 0, img, val, words, 0);
    var chunks := Puts(RegAddrs(u, img), ExecAll(ctx, mem, RegBlobs(u, name, wi)));
    HeldFaithful(d, u, img, val, chunks, mem);
  }

  /** A value held in registers: every kind but a pointer. */
  lemma RegisterValueFaithful(d: Decoder, t: GoType, name: string, wi: nat, val: Bytes,
                              ctx: KernelFetch.PtRegs, mem: Memory, all: seq<LeafData>, extra: nat, user: RecipeTable)
    requires Process(d, mem) && Covered(d.env, t) && VariableHeld(t, val, wi, ctx, mem) && TopPlain(d, t, val, mem)
    requires wi + AbiWordCount(t) <= |ABI_REGS| && !Underlying(t).Ptr? && Quiet(d.env, t, wi, ctx, mem, user)
    ensures var u := Underlying(t);
            var words := ExecAll(ctx, mem, WordSpecs(u, name, wi));
            var captures := ExecAll(ctx, mem, RegBlobs(u, name, wi));
            var shown := RenderLeaves(d, PlannedValue(d.env, t, name), words, captures, all, extra, user);
            Faithful(shown.rendered, TopView(d, t, val, mem)) && shown.extra == extra
  {
    hide WordSpecs, RegBlobs, RenderValue, RegisterView, ConsumeReg, ScatteredImage, Exec, InRegisters, RegisterPlain, Faithful;
    UnderlyingFacts(t);
    var u := Underlying(t);
    var words := ExecAll(ctx, mem, WordSpecs(u, name, wi));
    var captures := ExecAll(ctx, mem, RegBlobs(u, name, wi));
    if u.Iface? {
      InterfaceFaithful(d, t, name, wi, val, ctx, mem, all, extra, user);
    } else if forall w <- words :: !w.readError {
      HeaderFaithful(u, name, wi, val, ctx, mem, words);
      PositiveSize(u);
      if u.Struct? {
        StructFaithful(d, t, u, name, wi, val, ctx, mem, words, captures);
      } else {
        HeadFaithful(d, t, u, name, wi, val, ctx, mem, words, captures);
      }
    } else {
      UnavailableFaithful(TopView(d, t, val, mem));
    }
  }

  /** An interface whose recipe, if it has one, is not known. */
  lemma InterfaceFaithful(d: Decoder, t: GoType, name: string, wi: nat, val: Bytes,
                          ctx: KernelFetch.PtRegs, mem: Memory, all: seq<LeafData>, extra: nat, user: RecipeTable)
    requires Process(d, mem) && Covered(d.env, t) && VariableHeld(t, val, wi, ctx, mem) && TopPlain(d, t, val, mem)
    requires wi + AbiWordCount(t) <= |ABI_REGS| && Underlying(t).Iface? && Quiet(d.env, t, wi, ctx, mem, user)
    ensures var u := Underlying(t);
            var words := ExecAll(ctx, mem, WordSpecs(u, name, wi));
            var captures := ExecAll(ctx, mem, RegBlobs(u, name, wi));
            var shown := RenderLeaves(d, PlannedValue(d.env, t, name), words, captures, all, extra, user);
            Faithful(shown.rendered, TopView(d, t, val, mem)) && shown.extra == extra
  {
    hide WordSpecs, RegBlobs, RenderValue, RegisterView, ConsumeReg, ScatteredImage, Exec, InRegisters, RegisterPlain, Faithful;
    UnderlyingFacts(t);
    var u := Underlying(t);
    var words := ExecAll(ctx, mem, WordSpecs(u, name, wi));
    InterfaceReadable(u, name, wi, ctx, mem);
    HeaderFaithful(u, name, wi, val, ctx, mem, words);
    HeadFaithful(d, t, u, name, wi, val, ctx, mem, words, ExecAll(ctx, mem, RegBlobs(u, name, wi)));
    NilInterface(d, u, name, wi, val, ctx, mem, words);
    NilFaithful(d, t, val, mem);
    UnknownType(u, name, wi, ctx, mem, user);
  }

  lemma NilFaithful(d: Decoder, t: GoType, val: Bytes, mem: Memory)
    requires Underlying(t).Iface?
    ensures RegisterView(d, Underlying(t), val, mem) == Nil ==> Faithful(Nil, TopView(d, t, val, mem))
  {
  }

  /** A quiet interface's header does not lead to a recipe. */
  lemma UnknownType(u: GoType, name: string, wi: nat, ctx: KernelFetch.PtRegs, mem: Memory, user: RecipeTable)
    requires u.Iface? && !HasRules(user, ReadUint(Exec(ctx, mem, TypeWordSpec("", u.nonEmpty, Reg(wi))).data))
    ensures var words := ExecAll(ctx, mem, WordSpecs(u, name, wi));
            |words| == 2 && |ConcatLeaves(words)| == 16 && !HasRules(user, ReadUint(ConcatLeaves(words)))
  {
    var words := ExecAll(ctx, mem, WordSpecs(u, name, wi));
    IfaceWords(words);
    assert words[0] == Exec(ctx, mem, TypeWordSpec("", u.nonEmpty, Reg(wi)));
  }

  /** Two words make a 16-byte header. */
  lemma IfaceWords(words: seq<LeafData>)
    requires |words| == 2 && |words[0].data| == 64 == |words[1].data|
    ensures var header := ConcatLeaves(words);
            && |header| == 16
            && ReadUint(header) == ReadUint(words[0].data) && ReadUint(header[8..]) == ReadUint(words[1].data)
  {
    var header := ConcatLeaves(words);
    var tail := words[1..];
    assert tail[0] == words[1] && tail[1..] == [];
    assert ConcatLeaves(tail) == words[1].data[..8] + [];
    assert header == words[0].data[..8] + words[1].data[..8];
    assert header[..8] == words[0].data[..8] && header[8..][..8] == words[1].data[..8];
  }

  /** All words of a register value were fetched and flatten the value. */
  predicate Fetched(u: GoType, name: string, wi: nat, val: Bytes, ctx: KernelFetch.PtRegs, mem: Memory, header: Bytes)
  {
    && WellFormed(u) && 0 < AbiWordCount(u) && wi + AbiWordCount(u) <= |ABI_REGS|
    && 0 < Size(u) <= LOW_PAGE && Size(u) <= |val|
    && |header| == 8 * AbiWordCount(u)
    && WordsAre(ctx, mem, WordSpecs(u, name, wi), header, 0)
    && Flattens(u, 0, val, header, 0)
  }

  lemma StructFaithful(d: Decoder, t: GoType, u: GoType, name: string, wi: nat, val: Bytes,
                       ctx: KernelFetch.PtRegs, mem: Memory, words: seq<LeafData>, captures: seq<LeafData>)
    requires Process(d, mem) && u == Underlying(t) && u.Struct?
    requires Fetched(u, name, wi, val, ctx, mem, ConcatLeaves(words))
    requires RegisterPlain(d, u, val, mem)
    requires captures == ExecAll(ctx, mem, RegBlobs(u, name, wi))
    ensures var img := ScatteredImage(t, ConcatLeaves(words));
            Faithful(RenderValue(d, t, img, 0, ConsumeReg(t, img, captures).chunks, 0), RegisterView(d, u, val, mem))
  {
    var header := ConcatLeaves(words);
    var img := ScatteredImage(u, header);
    ScatterUndoesFlattening(u, 0, header, 0, Zeros(Size(u)));
    RegBlobsCount(u, name, wi);
    ImageFaithful(d, u, name, wi, val, img, header, ctx, mem);
    ConsumeRegBinds(u, img, captures);
    NamesAreTransparent(d, t, img, ConsumeReg(u, img, captures).chunks, header, captures);
  }

  /** The snapshot of a value that is rendered from its header. */
  function HeadChunks(u: GoType, header: Bytes, captures: seq<LeafData>): seq<Chunk>
  {
    match u
    case Str => BindHead(header, captures)
    case Slice(_, _) => BindHead(header, captures)
    case Iface(_) => BindIface(header, captures)
    case _ => []
  }

  lemma HeadFaithful(d: Decoder, t: GoType, u: GoType, name: string, wi: nat, val: Bytes,
                     ctx: KernelFetch.PtRegs, mem: Memory, words: seq<LeafData>, captures: seq<LeafData>)
    requires Process(d, mem) && u == Underlying(t) && !u.Struct? && !u.Ptr?
    requires Fetched(u, name, wi, val, ctx, mem, ConcatLeaves(words))
    requires RegisterPlain(d, u, val, mem)
    requires captures == ExecAll(ctx, mem, RegBlobs(u, name, wi))
    ensures var header := ConcatLeaves(words);
            Faithful(RenderValue(d, t, header, 0, HeadChunks(u, header, captures), 0), RegisterView(d, u, val, mem))
  {
    var header := ConcatLeaves(words);
    ImageFaithful(d, u, name, wi, val, header, header, ctx, mem);
    RegBlobsCount(u, name, wi);
    ConsumeRegBinds(u, header, captures);
    assert HeadChunks(u, header, captures) == Puts(RegAddrs(u, header), captures);
    NamesAreTransparent(d, t, header, HeadChunks(u, header, captures), header, captures);
  }

  lemma InterfaceReadable(u: GoType, name: string, wi: nat, ctx: KernelFetch.PtRegs, mem: Memory)
    requires u.Iface? && (u.nonEmpty ==> ItabReadable(ctx(Reg(wi)), mem))
    ensures forall w <- ExecAll(ctx, mem, WordSpecs(u, name, wi)) :: !w.readError
  {
    assert [Step(8, false)][1..] == [];
  }

  /** The nil shown for an interface whose type word is zero is the nil it holds. */
  lemma NilInterface(d: Decoder, u: GoType, name: string, wi: nat, val: Bytes,
                     ctx: KernelFetch.PtRegs, mem: Memory, words: seq<LeafData>)
    requires u.Iface? && words == ExecAll(ctx, mem, WordSpecs(u, name, wi))
    requires Flattens(u, 0, val, ConcatLeaves(words), 0)
    ensures words[0].isNil || ReadUint(words[0].data) == 0 ==> RegisterView(d, u, val, mem) == Nil
  {
    var header := ConcatLeaves(words);
    SameBytesPart(val, 0, header, 0, 16, 0, 8);
    assert header[0..8] == words[0].data[..8];
    assert Known(Defined(val), 0, 8) == val[0..8];
    if words[0].isNil {
      KernelFetch.ZerosAreZero(words[0].data[..8]);
    }
  }

  /** A pointer. */
  lemma PointerFaithful(d: Decoder, t: GoType, name: string, wi: nat, val: Bytes,
                        ctx: KernelFetch.PtRegs, mem: Memory, all: seq<LeafData>, extra: nat, user: RecipeTable)
    requires Process(d, mem) && Covered(d.env, t) && VariableHeld(t, val, wi, ctx, mem) && TopPlain(d, t, val, mem)
    requires wi < |ABI_REGS| && Underlying(t).Ptr? && Quiet(d.env, t, wi, ctx, mem, user)
    ensures var v := PlannedValue(d.env, t, name);
            var leaves := ExecAll(ctx, mem, ValueSpecs(d.env, t, name, wi));
            && v.wordCount == 1 && |leaves| == v.LeafCount()
            && var shown := RenderLeaves(d, v, leaves[..1], leaves[1..], all, extra, user);
               Faithful(shown.rendered, TopView(d, t, val, mem)) && shown.extra == extra
  {
    UnderlyingFacts(t);
    ValueSpecsCount(d.env, t, name, wi);
    var id := Underlying(t).target;
    var v := PlannedValue(d.env, t, name);
    var leaves := ExecAll(ctx, mem, ValueSpecs(d.env, t, name, wi));
    PointerWord(d, id, t, name, wi, val, ctx, mem);
    PointerLeaves(d, id, v, leaves[..1], leaves[1..], all, extra, user);
    if IsCapturedStruct(d.env(id)) {
      CapturedPointerFaithful(d, id, t, name, wi, val, ctx, mem, all, extra, user);
    }
  }

  lemma PointerLeaves(d: Decoder, id: TypeId, v: Value, words: seq<LeafData>, captures: seq<LeafData>,
                      all: seq<LeafData>, extra: nat, user: RecipeTable)
    requires Underlying(v.typ) == Ptr(id) && |words| == 1 && !words[0].readError && |ConcatLeaves(words)| == 8
    ensures RenderLeaves(d, v, words, captures, all, extra, user)
         == if |captures| > 0 && captures[0].isNil then Shown(Nil, extra)
            else RenderPointer(d, id, ReadUint(ConcatLeaves(words)), captures, all, extra, user)
  {
  }

  lemma CapturedPointerFaithful(d: Decoder, id: TypeId, t: GoType, name: string, wi: nat, val: Bytes,
                                ctx: KernelFetch.PtRegs, mem: Memory, all: seq<LeafData>, extra: nat, user: RecipeTable)
    requires Process(d, mem) && Underlying(t) == Ptr(id) && NoItabs(d.env(id)) && IsCapturedStruct(d.env(id))
    requires ReadUint(val) == LittleEndian(ctx(Reg(wi))) && TopPlain(d, t, val, mem) && Quiet(d.env, t, wi, ctx, mem, user)
    ensures var captures := ExecAll(ctx, mem, ValueSpecs(d.env, t, name, wi))[1..];
            && |captures| > 0
            && (captures[0].isNil ==> TopView(d, t, val, mem) == Nil)
            && var shown := RenderPointer(d, id, ReadUint(val), captures, all, extra, user);
               Faithful(shown.rendered, TopView(d, t, val, mem)) && shown.extra == extra
  {
    hide MemSpecs, RenderValue, View, ConsumeMem, ApplyNested, Exec, ObjectImage, ExecAll, PlainReached, RegisterView, RegisterPlain, Size;
    var loc := MemLoc(Reg(wi), [], true);
    var word, blob := [WordSpec(name, 8, Reg(wi))], [BlobAt(name + ".obj", loc)];
    var specs := MemSpecs(d.env(id), name, loc);
    assert ValueSpecs(d.env, t, name, wi) == word + (blob + specs);
    ExecSplit(ctx, mem, word, blob + specs);
    ExecSplit(ctx, mem, blob, specs);
    ObjectFaithful(d, id, name, Reg(wi), ctx, mem);
    assert Exec(ctx, mem, blob[0]) == Exec(ctx, mem, BlobAt("", loc)) by { BlobNameless(ctx, mem, name + ".obj", loc); }
    NoRecipesNested(user, d.env(id), Exec(ctx, mem, blob[0]).data, all);
  }

  lemma BlobNameless(ctx: KernelFetch.PtRegs, mem: Memory, name: string, loc: MemLoc)
    ensures Exec(ctx, mem, BlobAt(name, loc)) == Exec(ctx, mem, BlobAt("", loc))
  {
  }

  lemma PointerWord(d: Decoder, id: TypeId, t: GoType, name: string, wi: nat, val: Bytes, ctx: KernelFetch.PtRegs, mem: Memory)
    requires Underlying(t) == Ptr(id) && RegisterHolds(ctx, wi, val, 0, 8)
    requires |ValueSpecs(d.env, t, name, wi)| > 0
    ensures var leaves := ExecAll(ctx, mem, ValueSpecs(d.env, t, name, wi));
            && ConcatLeaves(leaves[..1]) == ctx(Reg(wi))
            && !leaves[0].readError
            && ReadUint(ctx(Reg(wi))) == ReadUint(val) == LittleEndian(ctx(Reg(wi)))
  {
    var leaves := ExecAll(ctx, mem, ValueSpecs(d.env, t, name, wi));
    assert leaves[0].data[..8] == ctx(Reg(wi));
    assert leaves[..1][1..] == [];
    assert val[..8] == val[0..8];
  }

  /** The object behind a pointer, decoded from its prefix and its captures. */
  lemma ObjectFaithful(d: Decoder, id: TypeId, name: string, reg: string, ctx: KernelFetch.PtRegs, mem: Memory)
    requires Process(d, mem) && NoItabs(d.env(id))
    requires var p := LittleEndian(ctx(reg)); p != 0 ==> PlainReached(d, d.env(id), ObjectImage(d, id, p, mem), mem, 0)
    ensures var loc := MemLoc(reg, [], true);
            var pointee, p := d.env(id), LittleEndian(ctx(reg));
            var obj := Exec(ctx, mem, BlobAt(name + ".obj", loc));
            var captures := ExecAll(ctx, mem, MemSpecs(pointee, name, loc));
            var chunks := Put(p, obj) + ConsumeMem(pointee, obj.data, captures).chunks;
            && obj.isNil == (p == 0)
            && (p != 0 && !obj.readError ==>
                  Faithful(RenderValue(d, pointee, obj.data, p, chunks, 0),
                           View(d, pointee, ObjectImage(d, id, p, mem), mem, 0)))
  {
    var loc := MemLoc(reg, [], true);
    var pointee, p := d.env(id), LittleEndian(ctx(reg));
    var blob := BlobAt(name + ".obj", loc);
    var obj := Exec(ctx, mem, blob);
    WordBound(ctx(reg));
    if p != 0 && !obj.readError {
      BlobBoundTruly(ctx, mem, blob, p);
      assert Put(p, obj) == [Chunk(p, obj.data)] && Take(obj.data, 64) == obj.data;
      ObjectCapturesSound(pointee, name, reg, ctx, mem, obj.data);
      var captures := ExecAll(ctx, mem, MemSpecs(pointee, name, loc));
      ConsumeMemBinds(pointee, obj.data, captures);
      assert Sound(Put(p, obj) + ConsumeMem(pointee, obj.data, captures).chunks, mem);
      assert WellFormed(pointee);
      WellFormedSize(pointee);
      AgreesWhole(pointee, obj.data, Live(mem, p, Size(pointee)));
      RenderFaithful(d, pointee, obj.data, p, Live(mem, p, Size(pointee)),
                     Put(p, obj) + ConsumeMem(pointee, obj.data, captures).chunks, mem, 0);
    }
  }

  lemma {:induction false} NoRecipesNested(user: RecipeTable, t: GoType, mem: Bytes, all: seq<LeafData>)
    requires NoItabs(t) && NoneKnown(user, t, mem)
    ensures forall b :: ApplyNested(user, t, mem, all, b) == b
    decreases t
  {
    match t
    case Named(u) => NoRecipesNested(user, u, mem, all);
    case Struct(_, fields, _) => NoRecipesNestedFields(user, fields, mem, all);
    case _ =>
  }

  lemma {:induction false} NoRecipesNestedFields(user: RecipeTable, fields: seq<Field>, mem: Bytes, all: seq<LeafData>)
    requires forall f <- fields :: NoItabs(f.typ) && NoneKnown(user, f.typ, FieldMem(mem, f.offset))
    ensures forall b :: ApplyNestedFields(user, fields, mem, all, b) == b
    decreases fields
  {
    if fields != [] {
      NoRecipesNested(user, fields[0].typ, FieldMem(mem, fields[0].offset), all);
      NoRecipesNestedFields(user, fields[1..], mem, all);
    }
  }

  // ---- every planned word has its own register, in ABI order ----

  /** The registers of the ABI words among planned leaves. */
  function WordRegs(specs: seq<ArgSpec>): seq<string>
  {
    if specs == [] then []
    else (if specs[0].LocSpec? then [] else [SpecReg(specs[0])]) + WordRegs(specs[1..])
  }

  lemma {:induction false} WordRegsAppend(a: seq<ArgSpec>, b: seq<ArgSpec>)
    ensures WordRegs(a + b) == WordRegs(a) + WordRegs(b)
  {
    if a == [] {
      assert a + b == b;
    } else {
      assert (a + b)[0] == a[0] && (a + b)[1..] == a[1..] + b;
      WordRegsAppend(a[1..], b);
    }
  }

  lemma {:induction false} NoWordRegs(specs: seq<ArgSpec>)
    requires forall s <- specs :: s.LocSpec?
    ensures WordRegs(specs) == []
  {
    if specs != [] {
      assert specs[0] in specs;
      NoWordRegs(specs[1..]);
    }
  }

  function RegRange(from: nat, n: nat): seq<string>
    requires from + n <= |ABI_REGS|
  {
    ABI_REGS[from..from + n]
  }

  lemma RegRangeSplit(from: nat, n: nat, m: nat)
    requires from + n + m <= |ABI_REGS|
    ensures RegRange(from, n) + RegRange(from + n, m) == RegRange(from, n + m)
  {
  }

  /** In the ABI, and of a size the encoding keeps. */
  predicate InAbi(s: ArgSpec)
  {
    SpecReg(s) in ABI_REGS && ByteSized(s)
  }

  predicate AllInAbi(specs: seq<ArgSpec>)
  {
    forall s <- specs :: InAbi(s)
  }

  lemma {:induction false} WordSpecsInOrder(t: GoType, name: string, wi: nat)
    requires AbiWordCount(t) > 0 && wi + AbiWordCount(t) <= |ABI_REGS|
    ensures WordRegs(WordSpecs(t, name, wi)) == RegRange(wi, AbiWordCount(t))
    ensures AllInAbi(WordSpecs(t, name, wi))
    decreases t
  {
    match t
    case Named(b) => WordSpecsInOrder(b, name, wi);
    case Struct(_, fields, _) =>
      SupportedFields(fields);
      FieldSpecsInOrder(fields, name, wi);
    case Scalar(_, _) => LeafSpecsInOrder(t, name, wi);
    case Ptr(_) => LeafSpecsInOrder(t, name, wi);
    case Str => LeafSpecsInOrder(t, name, wi);
    case Iface(_) => LeafSpecsInOrder(t, name, wi);
    case Slice(_, _) => LeafSpecsInOrder(t, name, wi);
  }

  /** The kinds that are one, two or three words. */
  lemma LeafSpecsInOrder(t: GoType, name: string, wi: nat)
    requires t.Scalar? || t.Ptr? || t.Str? || t.Iface? || t.Slice?
    requires wi + AbiWordCount(t) <= |ABI_REGS|
    ensures WordRegs(WordSpecs(t, name, wi)) == RegRange(wi, AbiWordCount(t))
    ensures AllInAbi(WordSpecs(t, name, wi))
  {
    hide WordRegs, RegRange, AllInAbi, Reg;
    var specs := WordSpecs(t, name, wi);
    OneSpec(specs[0], wi);
    if t.Scalar? || t.Ptr? {
      assert specs == [specs[0]];
    } else {
      OneSpec(specs[1], wi + 1);
      JoinInOrder([specs[0]], [specs[1]], wi, 1, 1);
      if t.Slice? {
        OneSpec(specs[2], wi + 2);
        JoinInOrder([specs[0]] + [specs[1]], [specs[2]], wi, 2, 1);
        assert specs == [specs[0]] + [specs[1]] + [specs[2]];
      } else {
        assert specs == [specs[0]] + [specs[1]];
      }
    }
  }

  lemma OneSpec(s: ArgSpec, wi: nat)
    requires wi < |ABI_REGS| && !s.LocSpec? && SpecReg(s) == Reg(wi)
    ensures WordRegs([s]) == RegRange(wi, 1) && AllInAbi([s])
  {
    OneWord([s]);
    assert ABI_REGS[wi] in ABI_REGS;
  }

  lemma OneWord(specs: seq<ArgSpec>)
    requires |specs| == 1 && !specs[0].LocSpec?
    ensures WordRegs(specs) == [SpecReg(specs[0])]
  {
    assert specs[1..] == [];
  }

  /** The first field of a supported struct and the others. */
  lemma FieldsStep(fields: seq<Field>, name: string, wi: nat)
    requires AllSupported(fields) && fields != []
    ensures var n := AbiWordCount(fields[0].typ);
            && 0 < n == |WordSpecs(fields[0].typ, name + "." + fields[0].name, wi)|
            && AllSupported(fields[1..]) && FieldWordCount(fields) == n + FieldWordCount(fields[1..])
  {
    hide WordSpecs, AbiWordCount;
    SupportedFields(fields);
    assert fields[0] in fields;
    WordSpecsCount(fields[0].typ, name + "." + fields[0].name, wi);
  }

  lemma {:induction false} FieldSpecsInOrder(fields: seq<Field>, name: string, wi: nat)
    requires AllSupported(fields) && wi + FieldWordCount(fields) <= |ABI_REGS|
    ensures WordRegs(FieldWordSpecs(fields, name, wi)) == RegRange(wi, FieldWordCount(fields))
    ensures AllInAbi(FieldWordSpecs(fields, name, wi))
    decreases fields
  {
    hide WordSpecs, RegRange, WordRegs, AllInAbi, AbiWordCount, AllSupported;
    NoneInOrder(wi);
    if fields != [] {
      var n, fieldName := AbiWordCount(fields[0].typ), name + "." + fields[0].name;
      FieldsStep(fields, name, wi);
      WordSpecsInOrder(fields[0].typ, fieldName, wi);
      FieldSpecsInOrder(fields[1..], name, wi + n);
      JoinInOrder(WordSpecs(fields[0].typ, fieldName, wi), FieldWordSpecs(fields[1..], name, wi + n),
                  wi, n, FieldWordCount(fields[1..]));
    }
  }

  lemma NoneInOrder(wi: nat)
    requires wi <= |ABI_REGS|
    ensures WordRegs([]) == RegRange(wi, 0) == [] && AllInAbi([])
  {
  }

  lemma JoinInOrder(a: seq<ArgSpec>, b: seq<ArgSpec>, wi: nat, n: nat, m: nat)
    requires wi + n + m <= |ABI_REGS|
    requires WordRegs(a) == RegRange(wi, n) && WordRegs(b) == RegRange(wi + n, m)
    requires AllInAbi(a) && AllInAbi(b)
    ensures WordRegs(a + b) == RegRange(wi, n + m) && AllInAbi(a + b)
  {
    WordRegsAppend(a, b);
    RegRangeSplit(wi, n, m);
  }

  predicate OnlyBlobs(specs: seq<ArgSpec>)
  {
    AllInAbi(specs) && forall s <- specs :: s.LocSpec?
  }

  lemma {:induction false} RegBlobsInAbi(t: GoType, name: string, wi: nat)
    requires AbiWordCount(t) > 0 && wi + AbiWordCount(t) <= |ABI_REGS|
    ensures OnlyBlobs(RegBlobs(t, name, wi))
    decreases t
  {
    match t
    case Named(b) => RegBlobsInAbi(b, name, wi);
    case Struct(_, fields, _) =>
      SupportedFields(fields);
      FieldRegBlobsInAbi(fields, name, wi);
    case _ =>
  }

  lemma {:induction false} FieldRegBlobsInAbi(fields: seq<Field>, name: string, wi: nat)
    requires AllSupported(fields) && wi + FieldWordCount(fields) <= |ABI_REGS|
    ensures OnlyBlobs(FieldRegBlobs(fields, name, wi))
    decreases fields
  {
    hide WordSpecs, AbiWordCount, AllSupported, OnlyBlobs, RegBlobs;
    if fields == [] {
      JoinBlobs([], []);
    } else {
      var n, fieldName := AbiWordCount(fields[0].typ), name + "." + fields[0].name;
      FieldsStep(fields, name, wi);
      RegBlobsInAbi(fields[0].typ, fieldName, wi);
      FieldRegBlobsInAbi(fields[1..], name, wi + n);
      JoinBlobs(RegBlobs(fields[0].typ, fieldName, wi), FieldRegBlobs(fields[1..], name, wi + n));
    }
  }

  lemma JoinBlobs(a: seq<ArgSpec>, b: seq<ArgSpec>)
    ensures OnlyBlobs([])
    ensures OnlyBlobs(a) && OnlyBlobs(b) ==> OnlyBlobs(a + b)
  {
    hide InAbi;
  }

  lemma ValueSpecsInOrder(env: TypeEnv, t: GoType, name: string, wi: nat)
    requires AbiWordCount(t) > 0 && wi + AbiWordCount(t) <= |ABI_REGS|
    ensures WordRegs(ValueSpecs(env, t, name, wi)) == RegRange(wi, AbiWordCount(t))
    ensures AllInAbi(ValueSpecs(env, t, name, wi))
  {
    hide WordSpecs, RegBlobs, ExtraCaptures, RegRange, WordRegs, AllInAbi, Reg;
    UnderlyingFacts(t);
    var u := Underlying(t);
    if u.Ptr? {
      PointerSpecsInOrder(env, u.target, name, wi);
    } else {
      NoneInOrder(wi + AbiWordCount(t));
      WordSpecsInOrder(u, name, wi);
      RegBlobsInAbi(u, name, wi);
      NoWordRegs(RegBlobs(u, name, wi));
      BlobsInAbi(RegBlobs(u, name, wi));
      JoinInOrder(WordSpecs(u, name, wi), RegBlobs(u, name, wi), wi, AbiWordCount(t), 0);
    }
  }

  lemma BlobsInAbi(specs: seq<ArgSpec>)
    requires OnlyBlobs(specs)
    ensures AllInAbi(specs)
  {
  }

  lemma PointerSpecsInOrder(env: TypeEnv, id: TypeId, name: string, wi: nat)
    requires wi < |ABI_REGS|
    ensures WordRegs(ValueSpecs(env, Ptr(id), name, wi)) == RegRange(wi, 1)
    ensures AllInAbi(ValueSpecs(env, Ptr(id), name, wi))
  {
    hide MemSpecs, RegRange, WordRegs, IsCapturedStruct, Reg;
    var word := [WordSpec(name, 8, Reg(wi))];
    OneSpec(word[0], wi);
    NoneInOrder(wi + 1);
    if IsCapturedStruct(env(id)) {
      var loc := MemLoc(Reg(wi), [], true);
      var rest := [BlobAt(name + ".obj", loc)] + MemSpecs(env(id), name, loc);
      MemSpecsReg(env(id), name, loc);
      NoWordRegs(rest);
      assert word[0] in word && InAbi(word[0]);
      assert forall s <- rest :: SpecReg(s) == Reg(wi) && ByteSized(s);
      JoinInOrder(word, rest, wi, 1, 0);
      assert ValueSpecs(env, Ptr(id), name, wi) == word + rest;
    }
  }

  function WordTotal(values: seq<Value>): nat
  {
    if values == [] then 0 else values[0].wordCount + WordTotal(values[1..])
  }

  /** `nextWord` never runs out: the words of any plan are the first registers of the ABI, each
   *  once and in order. */
  lemma {:induction false} PlanTakesRegistersInOrder(env: TypeEnv, vars: seq<Variable>, wi: nat, used: nat)
    requires wi <= used <= MAX_FETCH_ARGS
    ensures var (specs, values) := PlanList(env, vars, wi, used);
            && wi + WordTotal(values) <= MAX_FETCH_ARGS
            && WordRegs(specs) == RegRange(wi, WordTotal(values))
            && AllInAbi(specs)
    decreases vars
  {
    hide ValueSpecs, WordRegs, RegRange, AllInAbi, AbiWordCount, ValueCaptures;
    NoneInOrder(wi);
    if vars != [] && used < MAX_FETCH_ARGS {
      var v := vars[0];
      if Plannable(env, v.typ, used) {
        var value := PlannedValue(env, v.typ, v.name);
        var first := ValueSpecs(env, v.typ, v.name, wi);
        ValueSpecsInOrder(env, v.typ, v.name, wi);
        PlanTakesRegistersInOrder(env, vars[1..], wi + value.wordCount, used + value.LeafCount());
        var rest := PlanList(env, vars[1..], wi + value.wordCount, used + value.LeafCount());
        JoinInOrder(first, rest.0, wi, value.wordCount, WordTotal(rest.1));
        assert ([value] + rest.1)[1..] == rest.1;
      } else {
        PlanTakesRegistersInOrder(env, vars[1..], wi, used);
      }
    }
  }

  // ---- one variable ----

  /** Auto-fetch is faithful for one variable of any kind, whatever the recipe tables hold, as long
   *  as none of its recipes are known; and it takes no recipe leaf. */
  lemma ValueFaithful(d: Decoder, v: Variable, wi: nat, val: Bytes, ctx: KernelFetch.PtRegs, mem: Memory,
                      all: seq<LeafData>, extra: nat, user: RecipeTable)
    requires Process(d, mem) && Covered(d.env, v.typ) && VariableHeld(v.typ, val, wi, ctx, mem) && TopPlain(d, v.typ, val, mem)
    requires wi + AbiWordCount(v.typ) <= |ABI_REGS| && Quiet(d.env, v.typ, wi, ctx, mem, user)
    ensures var value := PlannedValue(d.env, v.typ, v.name);
            var leaves := ExecAll(ctx, mem, ValueSpecs(d.env, v.typ, v.name, wi));
            && |leaves| == value.LeafCount()
            && var shown := RenderLeaves(d, value, leaves[..value.wordCount], leaves[value.wordCount..], all, extra, user);
               Faithful(shown.rendered, TopView(d, v.typ, val, mem)) && shown.extra == extra
  {
    hide Faithful, TopView, TopPlain, Quiet, RenderLeaves, InRegisters, Exec;
    UnderlyingFacts(v.typ);
    ValueSpecsCount(d.env, v.typ, v.name, wi);
    var u := Underlying(v.typ);
    if u.Ptr? {
      PointerFaithful(d, v.typ, v.name, wi, val, ctx, mem, all, extra, user);
    } else {
      RegisterValueFaithful(d, v.typ, v.name, wi, val, ctx, mem, all, extra, user);
      WordSpecsCount(u, v.name, wi);
      ExecSplit(ctx, mem, WordSpecs(u, v.name, wi), RegBlobs(u, v.name, wi));
    }
  }

  // ---- end to end ----

  lemma AbiRegisterRead(ctx: KernelFetch.PtRegs, name: string)
    requires name in ABI_REGS
    ensures KernelFetch.ReadReg(ctx, KernelFetch.RegisterConstant(name)) == ctx(name)
  {
    var i :| 0 <= i < |ABI_REGS| && ABI_REGS[i] == name;
  }

  /** The arguments are the planner's, up to the flags `markIfaceSlots` sets, and the rules encode
   *  the arguments. */
  ghost predicate Loaded(specs: seq<ArgSpec>, args: seq<FetchArg>, rules: seq<KernelFetch.KernelRule>)
  {
    && |specs| == |args| == |rules|
    && forall i | 0 <= i < |specs| ::
         args[i] == Marked(ToFetchArgs(specs), i) && |args[i].rules| > 0 && KernelFetch.Encodes(rules[i], args[i])
  }

  lemma MarkedFetch(specs: seq<ArgSpec>, i: nat)
    requires i < |specs|
    ensures SameFetch(Marked(ToFetchArgs(specs), i), ToFetchArg(specs[i]))
  {
    hide HasSuffix, TrimSuffix, TypeSlot, ToFetchArg;
  }

  lemma LeafExecuted(ctx: KernelFetch.PtRegs, mem: Memory, s: ArgSpec, arg: FetchArg, k: KernelFetch.KernelRule)
    requires InAbi(s) && SameFetch(arg, ToFetchArg(s)) && KernelFetch.Encodes(k, arg)
    ensures k.Valid() && KernelFetch.FetchOne(ctx, mem, k) == Exec(ctx, mem, s)
  {
    hide KernelFetch.ReadReg, KernelFetch.RegisterConstant, KernelFetch.FetchOne, Exec, StackRules;
    assert arg.rules[0] == RegRule(SpecReg(s));
    AbiRegisterRead(ctx, SpecReg(s));
    EncodedLeaf(ctx, mem, s, arg, k);
  }

  lemma PlanExecuted(ctx: KernelFetch.PtRegs, mem: Memory, specs: seq<ArgSpec>, args: seq<FetchArg>,
                     rules: seq<KernelFetch.KernelRule>)
    requires AllInAbi(specs) && Loaded(specs, args, rules)
    ensures forall r <- rules :: r.Valid()
    ensures KernelFetch.FetchAll(ctx, mem, rules) == ExecAll(ctx, mem, specs)
  {
    hide InAbi, Exec, KernelFetch.FetchOne, Marked, ToFetchArg;
    forall i | 0 <= i < |specs|
      ensures rules[i].Valid() && KernelFetch.FetchOne(ctx, mem, rules[i]) == Exec(ctx, mem, specs[i])
    {
      MarkedFetch(specs, i);
      LeafExecuted(ctx, mem, specs[i], args[i], rules[i]);
    }
  }

  /** What is shown carries the variable's name and nothing false about it. */
  predicate ShowsTruly(d: Decoder, shown: NamedValue, v: Variable, val: Bytes, mem: Memory)
  {
    shown.name == v.name && Faithful(shown.value, TopView(d, v.typ, val, mem))
  }
}
