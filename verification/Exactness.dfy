/** How much is shown, and exactly where auto-fetch stops being faithful. */
module Exactness {
  import opened Wrappers
  import opened Words
  import opened GoTypes
  import opened FetchRules
  import opened FetchPlan
  import opened TargetMemory
  import KernelFetch
  import opened Scatter
  import opened Snapshot
  import opened Render
  import opened LiveView
  import opened TypeRecipe
  import opened AutoFetch
  import opened Faithfulness
  import opened AutoFetchTheorem
  import opened Recipes
  import opened RecipeTheorem
  import opened WholeList

  // ---- nothing missing means exact ----

  /** No part is unavailable or left out. */
  predicate Complete(shown: Rendered)
    decreases shown
  {
    match shown
    case Unavailable => false
    case UnknownInterface => false
    case Ref(a) => Complete(a)
    case Fields(_, fs) => FieldsComplete(fs)
    case SliceView(_, _, _, payload) => payload.Some?
    case _ => true
  }

  predicate FieldsComplete(shown: seq<NamedValue>)
    decreases shown
  {
    shown == [] || (Complete(shown[0].value) && FieldsComplete(shown[1..]))
  }

  lemma {:induction false} CompleteIsExact(shown: Rendered, truth: Rendered)
    requires Faithful(shown, truth) && Complete(shown)
    ensures shown == truth
    decreases shown
  {
    match shown
    case Ref(a) => CompleteIsExact(a, truth.target);
    case Fields(_, fs) => FieldsCompleteExact(fs, truth.fields);
    case _ =>
  }

  lemma {:induction false} FieldsCompleteExact(shown: seq<NamedValue>, truth: seq<NamedValue>)
    requires FieldsFaithful(shown, truth) && FieldsComplete(shown)
    ensures shown == truth
    decreases shown
  {
    if shown != [] {
      CompleteIsExact(shown[0].value, truth[0].value);
      FieldsCompleteExact(shown[1..], truth[1..]);
      assert shown == [shown[0]] + shown[1..] && truth == [truth[0]] + truth[1..];
    }
  }

  // ---- plain data is exact ----

  /** Numbers and structs of them, none empty. */
  predicate Flat(t: GoType)
  {
    match t
    case Named(b) => Flat(b)
    case Scalar(_, _) => true
    case Struct(_, fields, _) => fields != [] && forall f <- fields :: Flat(f.typ)
    case _ => false
  }

  lemma {:induction false} FlatSize(t: GoType)
    requires Flat(t) && WellFormed(t)
    ensures Size(t) > 0
    decreases t
  {
    match t
    case Named(b) => FlatSize(b);
    case Struct(_, fields, size) =>
      assert fields[0] in fields && FieldFits(fields[0], size);
      FlatSize(fields[0].typ);
    case _ =>
  }

  /** With all of its bytes in hand a flat value is shown without a gap. */
  lemma {:induction false} FlatComplete(d: Decoder, t: GoType, data: Bytes, addr: nat, chunks: seq<Chunk>, depth: nat)
    requires depth <= MAX_DYNAMIC_DEPTH && Flat(t) && WellFormed(t) && Size(t) <= |data|
    ensures Complete(RenderValue(d, t, data, addr, chunks, depth))
    decreases MAX_DYNAMIC_DEPTH - depth, t
  {
    if depth < MAX_DYNAMIC_DEPTH {
      match t
      case Named(b) => FlatComplete(d, b, data, addr, chunks, depth);
      case Struct(_, fields, size) =>
        var obj := ObjectBytes(size, data, addr, chunks);
        assert size <= |obj|;
        FlatFieldsComplete(d, fields, size, obj, addr, chunks, depth + 1);
      case _ =>
    }
  }

  lemma {:induction false} FlatFieldsComplete(d: Decoder, fields: seq<Field>, size: int, obj: Bytes, addr: nat,
                                              chunks: seq<Chunk>, depth: nat)
    requires depth <= MAX_DYNAMIC_DEPTH && size <= |obj|
    requires forall f <- fields :: FieldFits(f, size) && WellFormed(f.typ) && Flat(f.typ)
    ensures FieldsComplete(RenderFields(d, fields, obj, addr, chunks, depth))
    decreases MAX_DYNAMIC_DEPTH - depth, fields
  {
    if fields != [] {
      var f := fields[0];
      FlatFieldsComplete(d, fields[1..], size, obj, addr, chunks, depth);
      FlatSize(f.typ);
      assert FieldFits(f, size) && |FieldMem(obj, f.offset)| >= Size(f.typ);
      FlatComplete(d, f.typ, FieldBytes(f, obj, addr, chunks), (addr + f.offset) % ADDRESSES, chunks, depth);
      var rest := RenderFields(d, fields[1..], obj, addr, chunks, depth);
      var shown := RenderFields(d, fields, obj, addr, chunks, depth);
      assert !(d.hideUnexported && !f.exported) ==> shown[1..] == rest;
    }
  }

  lemma {:induction false} FlatFree(t: GoType)
    requires Flat(t)
    ensures InterfaceFree(t, iset{})
    decreases t
  {
    match t
    case Named(b) => FlatFree(b);
    case Struct(_, fields, _) =>
      forall f | f in fields
        ensures InterfaceFree(f.typ, iset{})
      {
        FlatFree(f.typ);
      }
    case _ =>
  }

  lemma FlatPlain(d: Decoder, t: GoType, img: Image, mem: Memory, depth: nat)
    requires Flat(t) && depth <= MAX_DYNAMIC_DEPTH
    ensures PlainReached(d, t, img, mem, depth)
  {
    FlatFree(t);
    InterfaceFreePlain(d, iset{}, t, img, mem, depth);
  }

  lemma {:induction false} FlatUnknown(user: RecipeTable, t: GoType, data: Bytes)
    requires Flat(t)
    ensures NoneKnown(user, t, data)
    decreases t
  {
    match t
    case Named(b) => FlatUnknown(user, b, data);
    case Struct(_, fields, _) =>
      forall f | f in fields
        ensures NoneKnown(user, f.typ, FieldMem(data, f.offset))
      {
        FlatUnknown(user, f.typ, FieldMem(data, f.offset));
      }
    case _ =>
  }

  /** A flat variable in registers is shown exactly as it is. */
  lemma FlatRegisterExact(d: Decoder, v: Variable, wi: nat, val: Bytes, ctx: KernelFetch.PtRegs, mem: Memory,
                          all: seq<LeafData>, extra: nat, user: RecipeTable)
    requires Process(d, mem) && Covered(d.env, v.typ) && VariableHeld(v.typ, val, wi, ctx, mem)
    requires wi + AbiWordCount(v.typ) <= |ABI_REGS| && Flat(v.typ)
    ensures var value := PlannedValue(d.env, v.typ, v.name);
            var leaves := ExecAll(ctx, mem, ValueSpecs(d.env, v.typ, v.name, wi));
            && |leaves| == value.LeafCount()
            && RenderLeaves(d, value, leaves[..value.wordCount], leaves[value.wordCount..], all, extra, user).rendered
            == TopView(d, v.typ, val, mem)
  {
    hide RenderValue, View, Faithful, TopView, ConsumeReg, ScatteredImage, Exec, InRegisters, PlainReached;
    FlatKinds(v.typ);
    UnderlyingFacts(v.typ);
    var u := Underlying(v.typ);
    FlatPlain(d, u, Defined(val), mem, 0);
    FlatFree(u);
    FreeHeld(d, iset{}, u, Defined(val), mem);
    ValueFaithful(d, v, wi, val, ctx, mem, all, extra, user);
    var value := PlannedValue(d.env, v.typ, v.name);
    var leaves := ExecAll(ctx, mem, ValueSpecs(d.env, v.typ, v.name, wi));
    FlatWords(u, v.name, wi, ctx, mem);
    WordSpecsCount(u, v.name, wi);
    ExecSplit(ctx, mem, WordSpecs(u, v.name, wi), RegBlobs(u, v.name, wi));
    var words := leaves[..value.wordCount];
    HeaderFaithful(u, v.name, wi, val, ctx, mem, words);
    FlatShown(d, v.typ, value, words, leaves[value.wordCount..], all, extra, user);
    CompleteIsExact(RenderLeaves(d, value, words, leaves[value.wordCount..], all, extra, user).rendered, TopView(d, v.typ, val, mem));
  }

  lemma {:induction false} FlatKinds(t: GoType)
    requires Flat(t)
    ensures Flat(Underlying(t)) && (Underlying(t).Scalar? || Underlying(t).Struct?)
  {
    if t.Named? { FlatKinds(t.base); }
  }

  lemma {:induction false} FlatWords(t: GoType, name: string, wi: nat, ctx: KernelFetch.PtRegs, mem: Memory)
    requires Flat(t)
    ensures forall s <- WordSpecs(t, name, wi) :: s.WordSpec?
    ensures forall w <- ExecAll(ctx, mem, WordSpecs(t, name, wi)) :: !w.readError
    decreases t
  {
    match t
    case Named(b) => FlatWords(b, name, wi, ctx, mem);
    case Struct(_, fields, _) => FlatFieldWords(fields, name, wi, ctx, mem);
    case _ =>
  }

  lemma {:induction false} FlatFieldWords(fields: seq<Field>, name: string, wi: nat, ctx: KernelFetch.PtRegs, mem: Memory)
    requires forall f <- fields :: Flat(f.typ)
    ensures forall s <- FieldWordSpecs(fields, name, wi) :: s.WordSpec?
    ensures forall w <- ExecAll(ctx, mem, FieldWordSpecs(fields, name, wi)) :: !w.readError
    decreases fields
  {
    if fields != [] {
      var fieldName := name + "." + fields[0].name;
      FlatWords(fields[0].typ, fieldName, wi, ctx, mem);
      FlatFieldWords(fields[1..], name, Advance(wi, |WordSpecs(fields[0].typ, fieldName, wi)|), ctx, mem);
    }
  }

  lemma FlatShown(d: Decoder, t: GoType, value: Value, words: seq<LeafData>, captures: seq<LeafData>, all: seq<LeafData>,
                  extra: nat, user: RecipeTable)
    requires Flat(t) && WellFormed(t) && value.typ == t
    requires |words| > 0 && (forall w <- words :: !w.readError) && |ConcatLeaves(words)| >= 8
    ensures Complete(RenderLeaves(d, value, words, captures, all, extra, user).rendered)
  {
    hide RenderValue, ConsumeReg;
    FlatKinds(t);
    UnderlyingFacts(t);
    FlatSize(t);
    var u := Underlying(t);
    var header := ConcatLeaves(words);
    if u.Struct? {
      var img := ScatteredImage(t, header);
      FlatComplete(d, t, img, 0, ConsumeReg(t, img, captures).chunks, 0);
    } else {
      FlatComplete(d, t, header, 0, [], 0);
    }
  }

  // ---- strings ----

  /** The 64 bytes copied for a string or an object are there. */
  predicate Copied(p: nat, mem: Memory)
  {
    p != 0 && p + AUTO_STRING_SIZE < ADDRESSES && Readable(mem, p, AUTO_STRING_SIZE)
  }

  /** A non-empty string variable is shown, and then exactly, if and only if 64 bytes can be read at
   *  its data pointer; otherwise it is unavailable. */
  lemma StringShownIff(d: Decoder, v: Variable, wi: nat, val: Bytes, ctx: KernelFetch.PtRegs, mem: Memory,
                       all: seq<LeafData>, extra: nat, user: RecipeTable)
    requires Process(d, mem) && Covered(d.env, v.typ) && VariableHeld(v.typ, val, wi, ctx, mem)
    requires wi + 2 <= |ABI_REGS| && Underlying(v.typ).Str? && Signed64(ReadUint(val[8..16])) > 0
    ensures var leaves := ExecAll(ctx, mem, ValueSpecs(d.env, v.typ, v.name, wi));
            var p := ReadUint(val);
            && |leaves| == 3
            && var shown := RenderLeaves(d, PlannedValue(d.env, v.typ, v.name), leaves[..2], leaves[2..], all, extra, user).rendered;
               if Copied(p, mem) then shown.Text? && shown == TopView(d, v.typ, val, mem) else shown == Unavailable
  {
    hide View, Faithful, TopView, Exec, ReadUser, Readable, RenderLeaves, ValueSpecs, InRegisters, Read;
    StringHeld(d.env, v, wi, val, ctx, mem);
    ValueFaithful(d, v, wi, val, ctx, mem, all, extra, user);
    StringLeaves(d.env, v, wi, val, ctx, mem);
    var leaves := ExecAll(ctx, mem, ValueSpecs(d.env, v.typ, v.name, wi));
    var p, len := ReadUint(val), Signed64(ReadUint(val[8..16]));
    BlobRead(ctx, mem, v.name, Reg(wi), p, if len > AUTO_STRING_SIZE then AUTO_STRING_SIZE else len);
    StringRendered(d, v, val, leaves[..2], leaves[2..], all, extra, user);
    var shown := RenderLeaves(d, PlannedValue(d.env, v.typ, v.name), leaves[..2], leaves[2..], all, extra, user).rendered;
    if shown.Text? { CompleteIsExact(shown, TopView(d, v.typ, val, mem)); }
  }

  lemma StringHeld(env: TypeEnv, v: Variable, wi: nat, val: Bytes, ctx: KernelFetch.PtRegs, mem: Memory)
    requires VariableHeld(v.typ, val, wi, ctx, mem) && Underlying(v.typ).Str?
    ensures AbiWordCount(v.typ) == 2 && 16 <= |val|
    ensures RegisterHolds(ctx, wi, val, 0, 8) && RegisterHolds(ctx, wi + 1, val, 8, 8)
  {
    UnderlyingFacts(v.typ);
  }

  lemma StringRendered(d: Decoder, v: Variable, val: Bytes, words: seq<LeafData>, captures: seq<LeafData>,
                       all: seq<LeafData>, extra: nat, user: RecipeTable)
    requires Underlying(v.typ).Str? && 16 <= |val| && ConcatLeaves(words) == val[..16] && |captures| == 1
    requires forall w <- words :: !w.readError
    requires Signed64(ReadUint(val[8..16])) > 0
    ensures var len := Signed64(ReadUint(val[8..16]));
            var found := Read(Put(ReadUint(val[..16]), captures[0]), ReadUint(val[..16]),
                              if len > AUTO_STRING_SIZE then AUTO_STRING_SIZE else len);
            var shown := RenderLeaves(d, PlannedValue(d.env, v.typ, v.name), words, captures, all, extra, user).rendered;
            if found.Some? then shown.Text? else shown == Unavailable
  {
    hide Read;
    var header := val[..16];
    assert header[8..16] == val[8..16];
    NamesAreTransparent(d, v.typ, header, BindHead(header, captures), header, []);
  }

  lemma StringLeaves(env: TypeEnv, v: Variable, wi: nat, val: Bytes, ctx: KernelFetch.PtRegs, mem: Memory)
    requires Underlying(v.typ).Str? && 16 <= |val| && wi + 2 <= |ABI_REGS|
    requires RegisterHolds(ctx, wi, val, 0, 8) && RegisterHolds(ctx, wi + 1, val, 8, 8)
    ensures var leaves := ExecAll(ctx, mem, ValueSpecs(env, v.typ, v.name, wi));
            && |leaves| == 3 && AbiWordCount(Underlying(v.typ)) == 2
            && !leaves[0].readError && !leaves[1].readError
            && ConcatLeaves(leaves[..2]) == val[..16]
            && ReadUint(val) == LittleEndian(ctx(Reg(wi))) == ReadUint(val[..16])
            && leaves[2] == Exec(ctx, mem, BlobAt(v.name + ".str", MemLoc(Reg(wi), [], false)))
  {
    var leaves := ExecAll(ctx, mem, ValueSpecs(env, v.typ, v.name, wi));
    var words := leaves[..2];
    var tail := words[1..];
    assert tail[1..] == [];
    assert leaves[0].data[..8] == ctx(Reg(wi)) && leaves[1].data[..8] == ctx(Reg(wi + 1));
    assert ConcatLeaves(tail) == ctx(Reg(wi + 1)) + [];
    assert val[..16] == val[0..8] + val[8..16];
    assert val[..8] == val[..16][..8];
  }

  /** What a blob's chunk answers: everything in its 64 bytes if they were copied, else nothing. */
  lemma BlobRead(ctx: KernelFetch.PtRegs, mem: Memory, name: string, reg: string, p: nat, n: nat)
    requires p == LittleEndian(ctx(reg)) && LowPageUnmapped(mem) && 0 < n <= AUTO_STRING_SIZE
    ensures var leaf := Exec(ctx, mem, BlobAt(name + ".str", MemLoc(reg, [], false)));
            Read(Put(p, leaf), p, n).Some? <==> Copied(p, mem)
  {
    WordBound(ctx(reg));
    var leaf := Exec(ctx, mem, BlobAt(name + ".str", MemLoc(reg, [], false)));
    BlobLeaf(ctx, mem, name + ".str", reg, false);
    var chunks := Put(p, leaf);
    if chunks != [] {
      assert chunks == [Chunk(p, leaf.data)] && chunks[1..] == [];
    }
  }

  /** A blob's leaf fails exactly if its 64 bytes cannot be read. */
  lemma BlobLeaf(ctx: KernelFetch.PtRegs, mem: Memory, name: string, reg: string, nilCheck: bool)
    ensures var p := LittleEndian(ctx(reg));
            var leaf := Exec(ctx, mem, BlobAt(name, MemLoc(reg, [], nilCheck)));
            && leaf.isNil == (nilCheck && p == 0)
            && (!leaf.isNil ==> leaf.readError == !Readable(mem, p, AUTO_STRING_SIZE))
            && (leaf.isNil ==> !leaf.readError)
  {
    var p := LittleEndian(ctx(reg));
    WordBound(ctx(reg));
    var steps := KernelFetch.Int16Steps([Step(0, false)]);
    assert steps[1..] == [] && steps[0] == Step(0, false);
    assert KernelFetch.Walk(mem, p, steps) == KernelFetch.Walk(mem, p % ADDRESSES, []);
  }

  // ---- pointers to plain data ----

  /** A pointer to a flat struct of at most 64 bytes is shown exactly if and only if it is nil or 64
   *  bytes can be read behind it; otherwise it is unavailable. */
  lemma PointerShownIff(d: Decoder, v: Variable, wi: nat, val: Bytes, ctx: KernelFetch.PtRegs, mem: Memory,
                        all: seq<LeafData>, extra: nat, user: RecipeTable)
    requires Process(d, mem) && Covered(d.env, v.typ) && VariableHeld(v.typ, val, wi, ctx, mem)
    requires wi < |ABI_REGS| && Underlying(v.typ).Ptr?
    requires var id := Underlying(v.typ).target;
             Flat(d.env(id)) && IsCapturedStruct(d.env(id)) && Size(d.env(id)) <= AUTO_STRING_SIZE
    ensures var leaves := ExecAll(ctx, mem, ValueSpecs(d.env, v.typ, v.name, wi));
            var p := ReadUint(val);
            && |leaves| > 1
            && var shown := RenderLeaves(d, PlannedValue(d.env, v.typ, v.name), leaves[..1], leaves[1..], all, extra, user).rendered;
               if p == 0 || Readable(mem, p, AUTO_STRING_SIZE) then shown == TopView(d, v.typ, val, mem) != Unavailable
               else shown == Unavailable
  {
    hide View, Faithful, TopView, Exec, ReadUser, Readable, RenderValue, MemSpecs, ConsumeMem, ApplyNested, ValueSpecs, PlainReached,
         ObjectImage, NoneKnown;
    UnderlyingFacts(v.typ);
    var id := Underlying(v.typ).target;
    var leaves := ExecAll(ctx, mem, ValueSpecs(d.env, v.typ, v.name, wi));
    var value := PlannedValue(d.env, v.typ, v.name);
    FlatPlain(d, d.env(id), ObjectImage(d, id, ReadUint(val), mem), mem, 0);
    FlatUnknown(user, d.env(id), Exec(ctx, mem, BlobAt("", MemLoc(Reg(wi), [], true))).data);
    PointerFaithful(d, v.typ, v.name, wi, val, ctx, mem, all, extra, user);
    PointerWord(d, id, v.typ, v.name, wi, val, ctx, mem);
    PointerLeaves(d, id, value, leaves[..1], leaves[1..], all, extra, user);
    ObjectLeaf(d, id, v, wi, ctx, mem);
    BlobLeaf(ctx, mem, v.name + ".obj", Reg(wi), true);
    assert WellFormed(d.env(id));
    var shown := RenderLeaves(d, value, leaves[..1], leaves[1..], all, extra, user).rendered;
    if ReadUint(val) == 0 || Readable(mem, ReadUint(val), AUTO_STRING_SIZE) {
      PointerComplete(d, id, ReadUint(val), leaves[1..], all, extra, user);
      CompleteIsExact(shown, TopView(d, v.typ, val, mem));
    }
  }

  lemma ObjectLeaf(d: Decoder, id: TypeId, v: Variable, wi: nat, ctx: KernelFetch.PtRegs, mem: Memory)
    requires Underlying(v.typ) == Ptr(id) && IsCapturedStruct(d.env(id))
    ensures var leaves := ExecAll(ctx, mem, ValueSpecs(d.env, v.typ, v.name, wi));
            |leaves| > 1 && leaves[1] == Exec(ctx, mem, BlobAt(v.name + ".obj", MemLoc(Reg(wi), [], true)))
  {
  }

  lemma PointerComplete(d: Decoder, id: TypeId, p: nat, captures: seq<LeafData>, all: seq<LeafData>, extra: nat, user: RecipeTable)
    requires Flat(d.env(id)) && WellFormed(d.env(id)) && Size(d.env(id)) <= AUTO_STRING_SIZE && IsCapturedStruct(d.env(id))
    requires |captures| > 0 && !captures[0].readError && |captures[0].data| == AUTO_STRING_SIZE
    ensures Complete(RenderPointer(d, id, p, captures, all, extra, user).rendered)
  {
    hide RenderValue, ConsumeMem, ApplyNested;
    if p != 0 {
      var obj := captures[0].data;
      var chunks := Put(p, captures[0]) + ConsumeMem(d.env(id), obj, captures[1..]).chunks;
      var b := ApplyNested(user, d.env(id), obj, all, Binding(chunks, extra));
      FlatComplete(d, d.env(id), obj, p, b.chunks, 0);
    }
  }

  // ---- where faithfulness ends ----

  /** The chunk bound for an interface's type word is true of memory if and only if the 56 bytes
   *  after that word happen to be zero: only eight bytes were copied into its 64-byte slot. */
  lemma TypeLeafSoundIff(mem: Memory, base: nat, steps: seq<Step>, nilCheck: bool)
    requires var leaf := KernelFetch.FetchAt(mem, base, steps, 8, nilCheck); !leaf.isNil && !leaf.readError
    ensures KernelFetch.Walk(mem, base, steps).Some?
    ensures var addr := KernelFetch.Walk(mem, base, steps).value;
            var leaf := KernelFetch.FetchAt(mem, base, steps, 8, nilCheck);
            SoundChunk(Chunk(addr, leaf.data), mem) <==> forall i | 8 <= i < 64 :: LiveByte(mem, At(addr, i)) == Some(0)
  {
    var addr := KernelFetch.Walk(mem, base, steps).value;
    var leaf := KernelFetch.FetchAt(mem, base, steps, 8, nilCheck);
    assert forall i | 8 <= i < 64 :: leaf.data[i] == 0;
    assert forall i | 0 <= i < 8 :: LiveByte(mem, At(addr, i)) == Some(leaf.data[i]);
    if SoundChunk(Chunk(addr, leaf.data), mem) {
      forall i | 8 <= i < 64
        ensures LiveByte(mem, At(addr, i)) == Some(0)
      {
        assert LiveByte(mem, At(addr, i)) == Some(Chunk(addr, leaf.data).data[i]);
      }
    }
  }

  /** What Go guarantees of a top-level interface with methods: a non-nil itab names a type, and no
   *  interface is the dynamic type of another. */
  predicate RealInterface(d: Decoder, itab: Word, val: Bytes)
  {
    LittleEndian(itab) != 0 ==>
      && ReadUint(val) != 0
      && (match d.resolve(ReadUint(val))
          case None => true
          case Some(dyn) => !Underlying(dyn).Iface?)
  }

  /** A top-level interface with methods whose itab cannot be read is shown as nil, because the nil
   *  check comes before the check for failed fetches. So it is shown truly if and only if the itab
   *  is nil or readable. */
  lemma InterfaceFaithfulIff(d: Decoder, v: Variable, wi: nat, val: Bytes, ctx: KernelFetch.PtRegs, mem: Memory,
                             all: seq<LeafData>, extra: nat, user: RecipeTable, kernel: KernelFetch.KernelRecipes)
    requires Process(d, mem) && Covered(d.env, v.typ) && Underlying(v.typ) == Iface(true) && wi + 2 <= |ABI_REGS|
    requires Size(v.typ) <= |val| && InRegisters(Underlying(v.typ), 0, val, wi, ctx, mem)
    requires TopPlain(d, v.typ, val, mem) && RealInterface(d, ctx(Reg(wi)), val)
    requires SameTable(user, kernel) && KernelFetch.ValidRecipes(kernel)
    requires var words := ExecAll(ctx, mem, WordSpecs(Underlying(v.typ), v.name, wi));
             || Quiet(d.env, v.typ, wi, ctx, mem, user)
             || OwnLeaves(all, extra, IfaceOwed(mem, words, 0, kernel))
    ensures var leaves := ExecAll(ctx, mem, ValueSpecs(d.env, v.typ, v.name, wi));
            && |leaves| == 3
            && var shown := RenderLeaves(d, PlannedValue(d.env, v.typ, v.name), leaves[..2], leaves[2..], all, extra, user).rendered;
               Faithful(shown, TopView(d, v.typ, val, mem)) <==> ItabReadable(ctx(Reg(wi)), mem)
  {
    hide View, TopView, ReadUser, Readable, RenderValue, InRegisters, RealInterface, PlainReached, SameTable, OwnLeaves, IfaceOwed, Quiet,
         Covered, Process, TopPlain;
    UnderlyingFacts(v.typ);
    var value := PlannedValue(d.env, v.typ, v.name);
    var leaves := ExecAll(ctx, mem, ValueSpecs(d.env, v.typ, v.name, wi));
    if ItabReadable(ctx(Reg(wi)), mem) {
      if Quiet(d.env, v.typ, wi, ctx, mem, user) {
        ValueFaithful(d, v, wi, val, ctx, mem, all, extra, user);
      } else {
        IfaceParts(d.env, v, wi, ctx, mem);
        IfaceShown(d, v, wi, val, ctx, mem, leaves[..2], leaves[2..], all, extra, user, kernel);
      }
    } else {
      ItabFails(d.env, v, wi, ctx, mem);
      NotNil(d, v.typ, ctx(Reg(wi)), val, mem);
    }
  }

  lemma ItabFails(env: TypeEnv, v: Variable, wi: nat, ctx: KernelFetch.PtRegs, mem: Memory)
    requires Underlying(v.typ) == Iface(true) && !ItabReadable(ctx(Reg(wi)), mem)
    ensures var leaves := ExecAll(ctx, mem, ValueSpecs(env, v.typ, v.name, wi));
            |leaves| == 3 && ReadUint(leaves[0].data) == 0
  {
    KernelFetch.EmptyWord();
    assert [Step(8, false)][1..] == [];
  }

  /** An interface with an itab is not nil. */
  lemma NotNil(d: Decoder, t: GoType, itab: Word, val: Bytes, mem: Memory)
    requires Underlying(t) == Iface(true) && 16 <= |val| && LittleEndian(itab) != 0 && RealInterface(d, itab, val)
    ensures TopView(d, t, val, mem) != Nil
  {
    hide DynamicView;
    var img := Defined(val);
    assert Known(img, 0, 8) == val[..8] && AllKnown(img, 0, 16);
    var dyn := d.resolve(ReadUint(val));
    if dyn.Some? {
      DynamicNotNil(d, dyn.value, Known(img, 8, 8), mem, 1);
    }
  }

  lemma DynamicNotNil(d: Decoder, dyn: GoType, w: Word, mem: Memory, depth: nat)
    requires depth <= MAX_DYNAMIC_DEPTH && !Underlying(dyn).Iface?
    ensures DynamicView(d, dyn, LittleEndian(w), mem, depth) != Nil
  {
    hide View, Live;
    ToBytesInverse(w);
    var data := LittleEndian(w);
    if IsDirect(dyn) && (Underlying(dyn).Ptr? ==> data != 0) {
      ViewOfUnderlying(d, dyn, Defined(PutUint64(data)), mem, depth);
      assert Known(Defined(PutUint64(data)), 0, 8) == w;
      KindNotNil(d, Underlying(dyn), Defined(PutUint64(data)), mem, depth);
    } else if !IsDirect(dyn) && data != 0 && 0 < Size(dyn) {
      PointersAreDirect(dyn);
      ViewOfUnderlying(d, dyn, Live(mem, data, Size(dyn)), mem, depth);
      KindNotNil(d, Underlying(dyn), Live(mem, data, Size(dyn)), mem, depth);
    }
  }

  lemma PointersAreDirect(t: GoType)
    ensures Underlying(t).Ptr? ==> IsDirect(t)
  {
  }

  lemma {:induction false} ViewOfUnderlying(d: Decoder, t: GoType, img: Image, mem: Memory, depth: nat)
    requires depth <= MAX_DYNAMIC_DEPTH
    ensures View(d, t, img, mem, depth) == View(d, Underlying(t), img, mem, depth)
    decreases t
  {
    if t.Named? { ViewOfUnderlying(d, t.base, img, mem, depth); }
  }

  /** Only a zero word is nil. */
  lemma KindNotNil(d: Decoder, u: GoType, img: Image, mem: Memory, depth: nat)
    requires depth <= MAX_DYNAMIC_DEPTH && !u.Iface? && !u.Named?
    requires u.Ptr? ==> AllKnown(img, 0, 8) && WordAt(img, 0) != 0
    ensures View(d, u, img, mem, depth) != Nil
  {
  }

  // ---- a one-pointer struct in an interface ----

  /** A struct whose only field is a pointer, which `typeIsDirect` takes for direct. */
  predicate OnePointer(dyn: GoType, name: string, f: Field, id: TypeId)
  {
    Underlying(dyn) == Struct(name, [f], 8) && !IsRuntimeStruct(name) && f.offset == 0 && Underlying(f.typ) == Ptr(id)
  }

  /** The object at `w` lies among the 64 bytes copied from `p`. */
  predicate InsideCopy(w: nat, size: int, p: nat)
  {
    p <= w && w + size <= p + AUTO_STRING_SIZE
  }

  /** What is shown of the pointer's target, looked for at `w` although the pointer is `p`, is true. */
  predicate SameTarget(d: Decoder, id: TypeId, w: nat, p: nat, copy: Bytes, mem: Memory)
    requires InsideCopy(w, Size(d.env(id)), p) && 0 < Size(d.env(id)) && |copy| == AUTO_STRING_SIZE
  {
    var size := Size(d.env(id));
    Faithful(RenderValue(d, d.env(id), copy[w - p..w - p + size], w, [Chunk(p, copy)], 3), View(d, d.env(id), Live(mem, p, size), mem, 3))
  }

  /** The pointer's target is shown truly although it is looked for one level too deep. */
  predicate DeepButTrue(d: Decoder, f: Field, id: TypeId, p: nat, mem: Memory)
  {
    var size := Size(d.env(id));
    || !Visible(d, f)
    || !Copied(p, mem)
    || (var copy := ReadUser(mem, p, AUTO_STRING_SIZE).value;
        var w := ReadUint(copy);
        && w != 0
        && (size <= 0 || size > MAX_READ_SIZE || !InsideCopy(w, size, p) || SameTarget(d, id, w, p, copy, mem)))
  }

  /** The snapshot of an interface without rules: the 64 bytes at its data word. */
  lemma CopyBound(ctx: KernelFetch.PtRegs, mem: Memory, name: string, reg: string)
    requires LowPageUnmapped(mem)
    ensures var p := LittleEndian(ctx(reg));
            var chunks := Put(p, Exec(ctx, mem, BlobAt(name, MemLoc(reg, [], true))));
            && (p == 0 || !Readable(mem, p, AUTO_STRING_SIZE) ==> chunks == [])
            && (p != 0 && Readable(mem, p, AUTO_STRING_SIZE) ==> chunks == [Chunk(p, ReadUser(mem, p, AUTO_STRING_SIZE).value)])
  {
    var p := LittleEndian(ctx(reg));
    WordBound(ctx(reg));
    var steps := KernelFetch.Int16Steps([Step(0, false)]);
    assert steps[1..] == [] && steps[0] == Step(0, false);
    assert KernelFetch.Walk(mem, p, steps) == KernelFetch.Walk(mem, p % ADDRESSES, []);
    if p != 0 && Readable(mem, p, AUTO_STRING_SIZE) {
      var b := ReadUser(mem, p, AUTO_STRING_SIZE).value;
      assert b + Zeros(0) == b;
    }
  }

  lemma CopyReads(p: nat, copy: Bytes, addr: nat, n: nat)
    requires 0 < p && |copy| == AUTO_STRING_SIZE && 0 < n
    ensures var chunks := [Chunk(p, copy)];
            && (p + AUTO_STRING_SIZE < ADDRESSES && InsideCopy(addr, n, p) ==> Read(chunks, addr, n) == Some(copy[addr - p..addr - p + n]))
            && (p + AUTO_STRING_SIZE < ADDRESSES && !InsideCopy(addr, n, p) ==> Read(chunks, addr, n) == None)
            && (ADDRESSES <= p + AUTO_STRING_SIZE && p < ADDRESSES && p <= addr ==> Read(chunks, addr, n) == None)
  {
    var chunks := [Chunk(p, copy)];
    assert chunks[1..] == [];
  }

  /** What is shown of the struct, and what it is. */
  lemma DirectStruct(d: Decoder, dyn: GoType, name: string, f: Field, id: TypeId, word: Word, chunks: seq<Chunk>, mem: Memory)
    requires OnePointer(dyn, name, f, id)
    ensures var p := LittleEndian(word);
            var obj := ObjectBytes(8, word, p, chunks);
            var shown, truth := RenderDynamic(d, dyn, p, chunks, 1), DynamicView(d, dyn, p, mem, 1);
            && |obj| == 8
            && (!Visible(d, f) ==> shown == Fields(name, []) == truth)
            && (Visible(d, f) ==>
                  && shown == Fields(name, [NamedValue(f.name, RenderValue(d, Ptr(id), obj, p, chunks, 2))])
                  && truth == Fields(name, [NamedValue(f.name, View(d, Ptr(id), Defined(word), mem, 2))]))
  {
    hide ObjectBytes, FieldBytes;
    ToBytesInverse(word);
    WordBound(word);
    var p := LittleEndian(word);
    var obj := ObjectBytes(8, word, p, chunks);
    ObjectEight(word, p, chunks);
    StructByName(d, dyn, word, p, Defined(word), chunks, mem, 1);
    assert IsDirect(dyn) by { LooksDirect(dyn, name, f, id); }
    FetchPlanFacts(f.typ);
    OneFieldShown(d, f, obj, p, Defined(word), chunks, mem, 2);
    StructByName(d, f.typ, obj, p, Defined(word), chunks, mem, 2);
  }

  lemma ObjectEight(word: Word, p: nat, chunks: seq<Chunk>)
    ensures |ObjectBytes(8, word, p, chunks)| == 8
  {
  }

  lemma LooksDirect(dyn: GoType, name: string, f: Field, id: TypeId)
    requires OnePointer(dyn, name, f, id)
    ensures IsDirect(dyn)
  {
    var fields := [f];
    assert Underlying(dyn).fields == fields && Underlying(fields[0].typ).Ptr?;
  }

  /** Names make no difference to either reading. */
  lemma {:induction false} StructByName(d: Decoder, t: GoType, data: Bytes, addr: nat, img: Image, chunks: seq<Chunk>, mem: Memory, depth: nat)
    requires depth <= MAX_DYNAMIC_DEPTH
    ensures RenderValue(d, t, data, addr, chunks, depth) == RenderValue(d, Underlying(t), data, addr, chunks, depth)
    ensures View(d, t, img, mem, depth) == View(d, Underlying(t), img, mem, depth)
    decreases t
  {
    if t.Named? { StructByName(d, t.base, data, addr, img, chunks, mem, depth); }
  }

  lemma OneFieldShown(d: Decoder, f: Field, obj: Bytes, addr: nat, img: Image, chunks: seq<Chunk>, mem: Memory, depth: nat)
    requires depth <= MAX_DYNAMIC_DEPTH && f.offset == 0 && |obj| == 8 && Size(f.typ) == 8 && addr < ADDRESSES
    ensures var shown, truth := RenderFields(d, [f], obj, addr, chunks, depth), FieldViews(d, [f], img, mem, depth);
            && (!Visible(d, f) ==> shown == [] == truth)
            && (Visible(d, f) ==>
                  && shown == [NamedValue(f.name, RenderValue(d, f.typ, obj, addr, chunks, depth))]
                  && truth == [NamedValue(f.name, View(d, f.typ, img, mem, depth))])
  {
    hide RenderValue, View;
    var fs := [f];
    assert fs[1..] == [];
    assert FieldMem(obj, 0) == obj && Drop(img, 0) == img;
    assert RenderFields(d, [], obj, addr, chunks, depth) == [] && FieldViews(d, [], img, mem, depth) == [];
  }

  /** The struct's field: the pointer in hand and the pointer shown. */
  lemma DirectField(d: Decoder, id: TypeId, word: Word, mem: Memory, chunks: seq<Chunk>)
    requires LowPageUnmapped(mem)
    requires var p := LittleEndian(word);
             && (p == 0 || !Readable(mem, p, AUTO_STRING_SIZE) ==> chunks == [])
             && (p != 0 && Readable(mem, p, AUTO_STRING_SIZE) ==> chunks == [Chunk(p, ReadUser(mem, p, AUTO_STRING_SIZE).value)])
    ensures var p, size := LittleEndian(word), Size(d.env(id));
            var shown := RenderValue(d, Ptr(id), ObjectBytes(8, word, p, chunks), p, chunks, 2);
            var truth := View(d, Ptr(id), Defined(word), mem, 2);
            && (p == 0 ==> shown == Nil == truth)
            && (p != 0 && (size <= 0 || size > MAX_READ_SIZE) ==> truth == Unavailable)
            && (p != 0 && 0 < size <= MAX_READ_SIZE ==> truth == Ref(View(d, d.env(id), Live(mem, p, size), mem, 3)))
            && (p != 0 && !Copied(p, mem) ==> shown == Unavailable)
            && (Copied(p, mem) ==>
                  var copy := ReadUser(mem, p, AUTO_STRING_SIZE).value;
                  var w := ReadUint(copy);
                  && (w == 0 ==> shown == Nil)
                  && (w != 0 && (size <= 0 || size > MAX_READ_SIZE || !InsideCopy(w, size, p)) ==> shown == Unavailable)
                  && (w != 0 && 0 < size <= MAX_READ_SIZE && InsideCopy(w, size, p) ==>
                        shown == Ref(RenderValue(d, d.env(id), copy[w - p..w - p + size], w, chunks, 3))))
  {
    hide ReadUser, Readable, Live;
    WordBound(word);
    var p, size := LittleEndian(word), Size(d.env(id));
    WholeWord(word);
    FieldTruth(d, id, word, mem);
    if p != 0 && Readable(mem, p, AUTO_STRING_SIZE) {
      var copy := ReadUser(mem, p, AUTO_STRING_SIZE).value;
      DirectCopied(d, id, word, p, copy);
    }
  }

  lemma WholeWord(word: Word)
    ensures word[..8] == word && ReadUint(word) == LittleEndian(word)
  {
  }

  lemma FieldTruth(d: Decoder, id: TypeId, word: Word, mem: Memory)
    ensures var p, size := LittleEndian(word), Size(d.env(id));
            var truth := View(d, Ptr(id), Defined(word), mem, 2);
            && (p == 0 ==> truth == Nil)
            && (p != 0 && (size <= 0 || size > MAX_READ_SIZE) ==> truth == Unavailable)
            && (p != 0 && 0 < size <= MAX_READ_SIZE ==> truth == Ref(View(d, d.env(id), Live(mem, p, size), mem, 3)))
  {
    hide Live;
    assert Known(Defined(word), 0, 8) == word;
  }

  /** With a copy at hand the pointer is read from the copy. */
  lemma DirectCopied(d: Decoder, id: TypeId, word: Word, p: nat, copy: Bytes)
    requires p == LittleEndian(word) != 0 && |copy| == AUTO_STRING_SIZE
    ensures var chunks, size, w := [Chunk(p, copy)], Size(d.env(id)), ReadUint(copy);
            var shown := RenderValue(d, Ptr(id), ObjectBytes(8, word, p, chunks), p, chunks, 2);
            var inside := 0 < size <= MAX_READ_SIZE && InsideCopy(w, size, p);
            && (ADDRESSES <= p + AUTO_STRING_SIZE ==> shown == Unavailable)
            && (p + AUTO_STRING_SIZE < ADDRESSES && w == 0 ==> shown == Nil)
            && (p + AUTO_STRING_SIZE < ADDRESSES && w != 0 && !inside ==> shown == Unavailable)
            && (p + AUTO_STRING_SIZE < ADDRESSES && w != 0 && inside ==>
                  shown == Ref(RenderValue(d, d.env(id), copy[w - p..w - p + size], w, chunks, 3)))
  {
    hide Read;
    WordBound(word);
    WholeWord(word);
    var chunks, size, w := [Chunk(p, copy)], Size(d.env(id)), ReadUint(copy);
    CopyReads(p, copy, p, 8);
    assert copy[0..8][..8] == copy[..8];
    if 0 < size {
      CopyReads(p, copy, w, size);
      CopyReads(p, copy, p, size);
    }
  }

  /** The recipe compiled for a one-pointer struct is empty: it is direct, but no pointer type. */
  lemma OnePointerHasNoRules(d: Decoder, user: RecipeTable, typeAddr: nat, dyn: GoType, name: string, f: Field, id: TypeId)
    requires OnePointer(dyn, name, f, id)
    ensures CompileTypeRecipe(d.env, dyn) == []
    ensures Learned(d, user) && d.resolve(typeAddr) == Some(dyn) ==> !HasRules(user, typeAddr)
  {
    LooksDirect(Underlying(dyn), name, f, id);
  }

  /** A top-level interface that holds a one-pointer struct is read one level too deep: `typeIsDirect`
   *  makes its data word the pointer, but the decoder looks for the struct at that address. So, before
   *  and after its type is learned, it is shown truly if and only if the field is hidden, the pointer
   *  is nil, its target was not copied, or the target's first word is not nil and either leads out of
   *  the copy or to a value that happens to look the same. */
  lemma DirectStructFaithfulIff(d: Decoder, v: Variable, wi: nat, val: Bytes, ctx: KernelFetch.PtRegs, mem: Memory,
                                all: seq<LeafData>, extra: nat, user: RecipeTable, dyn: GoType, name: string, f: Field, id: TypeId)
    requires Process(d, mem) && Covered(d.env, v.typ) && VariableHeld(v.typ, val, wi, ctx, mem) && wi + 2 <= |ABI_REGS|
    requires Underlying(v.typ).Iface? && Learned(d, user)
    requires ReadUint(val) != 0 && d.resolve(ReadUint(val)) == Some(dyn) && OnePointer(dyn, name, f, id)
    ensures var leaves := ExecAll(ctx, mem, ValueSpecs(d.env, v.typ, v.name, wi));
            var p := LittleEndian(ctx(Reg(wi + 1)));
            && |leaves| == 3
            && var shown := RenderLeaves(d, PlannedValue(d.env, v.typ, v.name), leaves[..2], leaves[2..], all, extra, user).rendered;
               Faithful(shown, TopView(d, v.typ, val, mem)) <==> p == 0 || DeepButTrue(d, f, id, p, mem)
  {
    hide View, RenderValue, Faithful, RenderLeaves, VariableHeld, Covered, Learned, HasRules, ReadUser, Readable, Process, DynamicView, RenderDynamic,
         OnePointer, TopView, ValueSpecs, Exec, ObjectBytes, Reg, DeepButTrue;
    UnderlyingFacts(v.typ);
    var p := LittleEndian(ctx(Reg(wi + 1)));
    var chunks := Put(p, Exec(ctx, mem, BlobAt(v.name + ".value", MemLoc(Reg(wi + 1), [], true))));
    ProcessLow(d, mem);
    OnePointerHasNoRules(d, user, ReadUint(val), dyn, name, f, id);
    CopyBound(ctx, mem, v.name + ".value", Reg(wi + 1));
    DirectShown(d, v, wi, val, ctx, mem, all, extra, user, dyn);
    DirectStruct(d, dyn, name, f, id, ctx(Reg(wi + 1)), chunks, mem);
    DirectStructTrue(d, name, f, id, ctx(Reg(wi + 1)), chunks, mem);
  }

  /** The struct as it is shown and as it is. */
  lemma DirectStructTrue(d: Decoder, name: string, f: Field, id: TypeId, word: Word, chunks: seq<Chunk>, mem: Memory)
    requires LowPageUnmapped(mem)
    requires var p := LittleEndian(word);
             && (p == 0 || !Readable(mem, p, AUTO_STRING_SIZE) ==> chunks == [])
             && (p != 0 && Readable(mem, p, AUTO_STRING_SIZE) ==> chunks == [Chunk(p, ReadUser(mem, p, AUTO_STRING_SIZE).value)])
    ensures Faithful(Fields(name, []), Fields(name, []))
    ensures !Visible(d, f) ==> DeepButTrue(d, f, id, LittleEndian(word), mem)
    ensures var p := LittleEndian(word);
            var shown := RenderValue(d, Ptr(id), ObjectBytes(8, word, p, chunks), p, chunks, 2);
            var truth := View(d, Ptr(id), Defined(word), mem, 2);
            var same := Faithful(Fields(name, [NamedValue(f.name, shown)]), Fields(name, [NamedValue(f.name, truth)]));
            Visible(d, f) ==> (same <==> p == 0 || DeepButTrue(d, f, id, p, mem))
  {
    hide View, RenderValue, Faithful, ReadUser, Readable, ObjectBytes, Live;
    DirectField(d, id, word, mem, chunks);
    FieldFaithful(d, name, f, id, word, chunks, mem);
  }

  lemma ProcessLow(d: Decoder, mem: Memory)
    requires Process(d, mem)
    ensures LowPageUnmapped(mem)
  {
  }

  /** A struct with one visible field is shown truly if the field is. */
  lemma FieldFaithful(d: Decoder, name: string, f: Field, id: TypeId, word: Word, chunks: seq<Chunk>, mem: Memory)
    ensures Faithful(Fields(name, []), Fields(name, []))
    ensures forall shown, truth :: Faithful(Fields(name, [NamedValue(f.name, shown)]), Fields(name, [NamedValue(f.name, truth)]))
                                   <==> Faithful(shown, truth)
    ensures forall truth :: Faithful(Unavailable, truth) && (Faithful(Nil, truth) <==> truth == Nil)
    ensures forall a, b :: Faithful(Ref(a), Ref(b)) <==> Faithful(a, b)
  {
    forall shown, truth
      ensures Faithful(Fields(name, [NamedValue(f.name, shown)]), Fields(name, [NamedValue(f.name, truth)])) <==> Faithful(shown, truth)
    {
      var a, b := [NamedValue(f.name, shown)], [NamedValue(f.name, truth)];
      assert a[1..] == [] && b[1..] == [];
      assert FieldsFaithful(a, b) <==> Faithful(shown, truth) && FieldsFaithful([], []);
    }
  }

  /** An interface without rules is rendered from its data word and the 64 bytes there. */
  lemma DirectShown(d: Decoder, v: Variable, wi: nat, val: Bytes, ctx: KernelFetch.PtRegs, mem: Memory,
                    all: seq<LeafData>, extra: nat, user: RecipeTable, dyn: GoType)
    requires Process(d, mem) && Covered(d.env, v.typ) && VariableHeld(v.typ, val, wi, ctx, mem) && wi + 2 <= |ABI_REGS|
    requires Underlying(v.typ).Iface? && !HasRules(user, ReadUint(val))
    requires ReadUint(val) != 0 && d.resolve(ReadUint(val)) == Some(dyn)
    ensures var leaves := ExecAll(ctx, mem, ValueSpecs(d.env, v.typ, v.name, wi));
            var p := LittleEndian(ctx(Reg(wi + 1)));
            var chunks := Put(p, Exec(ctx, mem, BlobAt(v.name + ".value", MemLoc(Reg(wi + 1), [], true))));
            && |leaves| == 3
            && RenderLeaves(d, PlannedValue(d.env, v.typ, v.name), leaves[..2], leaves[2..], all, extra, user).rendered
               == RenderDynamic(d, dyn, p, chunks, 1)
            && TopView(d, v.typ, val, mem) == DynamicView(d, dyn, p, mem, 1)
  {
    hide Exec, WordSpecs, RegBlobs, InRegisters, RenderDynamic, DynamicView, Covered, Process, ValueSpecs, TopView, RenderLeaves, VariableHeld, Reg,
         HasRules;
    var u := Underlying(v.typ);
    var words := ExecAll(ctx, mem, WordSpecs(u, v.name, wi));
    var leaves := ExecAll(ctx, mem, ValueSpecs(d.env, v.typ, v.name, wi));
    HeaderOf(d, v, wi, val, ctx, mem);
    IfaceParts(d.env, v, wi, ctx, mem);
    IfaceSpecs(d.env, v, wi);
    SecondRegister(wi);
    DynamicTruth(d, v.typ, ConcatLeaves(words), val, mem, dyn);
    QuietRendered(d, v, words, leaves[2..], all, extra, user, dyn);
  }

  lemma SecondRegister(wi: nat)
    requires wi + 2 <= |ABI_REGS|
    ensures Advance(wi, 1) == wi + 1
  {
  }

  /** The header of an interface that is not nil. */
  lemma HeaderOf(d: Decoder, v: Variable, wi: nat, val: Bytes, ctx: KernelFetch.PtRegs, mem: Memory)
    requires Covered(d.env, v.typ) && VariableHeld(v.typ, val, wi, ctx, mem) && wi + 2 <= |ABI_REGS|
    requires Underlying(v.typ).Iface? && ReadUint(val) != 0
    ensures var words := ExecAll(ctx, mem, WordSpecs(Underlying(v.typ), v.name, wi));
            var header := ConcatLeaves(words);
            && |words| == 2 && (forall w <- words :: !w.readError) && !words[0].isNil && ReadUint(words[0].data) != 0
            && |header| == 16 <= |val| && header == val[..16]
            && ReadUint(header[8..]) == LittleEndian(ctx(Reg(wi + 1)))
  {
    hide Exec, WordSpecs, InRegisters, WordsAre, Covered, VariableHeld, Reg;
    var u := Underlying(v.typ);
    var words := ExecAll(ctx, mem, WordSpecs(u, v.name, wi));
    IfaceHeld(d.env, v.typ, val, wi, ctx, mem);
    InterfaceReadable(u, v.name, wi, ctx, mem);
    HeaderFaithful(u, v.name, wi, val, ctx, mem, words);
    TwoLeaves(u, v.name, wi, ctx, mem);
    IfaceWords(words);
    NilIsZero(u, v.name, wi, ctx, mem);
    var header := ConcatLeaves(words);
    assert header[0..16] == header && val[0..16] == val[..16];
    assert val[..16][..8] == val[..8];
    DataWord(u, v.name, wi, ctx, mem);
  }

  lemma TwoLeaves(u: GoType, name: string, wi: nat, ctx: KernelFetch.PtRegs, mem: Memory)
    requires u.Iface?
    ensures var words := ExecAll(ctx, mem, WordSpecs(u, name, wi));
            |words| == 2 && |words[0].data| == 64 == |words[1].data|
  {
  }

  lemma DataWord(u: GoType, name: string, wi: nat, ctx: KernelFetch.PtRegs, mem: Memory)
    requires u.Iface? && wi + 2 <= |ABI_REGS|
    ensures var words := ExecAll(ctx, mem, WordSpecs(u, name, wi));
            |words| == 2 && ReadUint(words[1].data) == LittleEndian(ctx(Reg(wi + 1)))
  {
    hide Reg;
    var words := ExecAll(ctx, mem, WordSpecs(u, name, wi));
    assert words[1].data[..8] == ctx(Reg(wi + 1));
  }

  lemma QuietRendered(d: Decoder, v: Variable, words: seq<LeafData>, captures: seq<LeafData>,
                      all: seq<LeafData>, extra: nat, user: RecipeTable, dyn: GoType)
    requires Underlying(v.typ).Iface? && |words| == 2 && |captures| == 1
    requires (forall w <- words :: !w.readError) && !words[0].isNil && ReadUint(words[0].data) != 0
    requires |ConcatLeaves(words)| == 16 && !HasRules(user, ReadUint(ConcatLeaves(words)))
    requires ReadUint(ConcatLeaves(words)) != 0 && d.resolve(ReadUint(ConcatLeaves(words))) == Some(dyn)
    ensures var p := ReadUint(ConcatLeaves(words)[8..]);
            RenderLeaves(d, PlannedValue(d.env, v.typ, v.name), words, captures, all, extra, user).rendered
            == RenderDynamic(d, dyn, p, Put(p, captures[0]), 1)
  {
    hide RenderDynamic, ConcatLeaves;
    var header := ConcatLeaves(words);
    NoExtras(user, ReadUint(header), ReadUint(header[8..]), all, Binding(BindIface(header, captures), extra));
    NamesAreTransparent(d, v.typ, header, BindIface(header, captures), header, []);
  }

  lemma DynamicTruth(d: Decoder, t: GoType, header: Bytes, val: Bytes, mem: Memory, dyn: GoType)
    requires Underlying(t).Iface? && |header| == 16 <= |val| && header == val[..16]
    requires ReadUint(val) != 0 && d.resolve(ReadUint(val)) == Some(dyn)
    ensures ReadUint(header) == ReadUint(val)
    ensures TopView(d, t, val, mem) == DynamicView(d, dyn, ReadUint(header[8..]), mem, 1)
  {
    hide DynamicView;
    var img := Defined(val);
    assert header[..8] == val[..8] && Known(img, 0, 8) == val[..8];
    assert header[8..][..8] == val[8..16] && Known(img, 8, 8) == val[8..16];
    assert AllKnown(img, 0, 16);
  }

  /** Numbers behind the pointer look the same at both addresses exactly if they are the same. */
  lemma SameFlatTarget(d: Decoder, id: TypeId, w: nat, p: nat, mem: Memory)
    requires Process(d, mem) && Flat(d.env(id)) && Copied(p, mem) && w != 0
    requires 0 < Size(d.env(id)) && InsideCopy(w, Size(d.env(id)), p)
    ensures var copy, size := ReadUser(mem, p, AUTO_STRING_SIZE).value, Size(d.env(id));
            SameTarget(d, id, w, p, copy, mem)
            <==> View(d, d.env(id), Live(mem, w, size), mem, 3) == View(d, d.env(id), Live(mem, p, size), mem, 3)
  {
    hide RenderValue, View, Faithful, ReadUser, Readable, WellFormed, Flat;
    var copy, size := ReadUser(mem, p, AUTO_STRING_SIZE).value, Size(d.env(id));
    var data := copy[w - p..w - p + size];
    var chunks := [Chunk(p, copy)];
    var shown := RenderValue(d, d.env(id), data, w, chunks, 3);
    CopySound(mem, p);
    CopyReads(p, copy, w, size);
    ReadSound(chunks, w, size, mem);
    FlatTargetShown(d, id, data, w, chunks, mem);
    assert shown == View(d, d.env(id), Live(mem, w, size), mem, 3);
    if Faithful(shown, View(d, d.env(id), Live(mem, p, size), mem, 3)) {
      CompleteIsExact(shown, View(d, d.env(id), Live(mem, p, size), mem, 3));
    } else {
      SelfFaithful(d, id, data, w, chunks, mem);
    }
  }

  lemma CopySound(mem: Memory, p: nat)
    requires Copied(p, mem)
    ensures Sound([Chunk(p, ReadUser(mem, p, AUTO_STRING_SIZE).value)], mem)
    ensures |ReadUser(mem, p, AUTO_STRING_SIZE).value| == AUTO_STRING_SIZE
  {
  }

  /** A flat target is shown exactly as it lies in memory. */
  lemma FlatTargetShown(d: Decoder, id: TypeId, data: Bytes, w: nat, chunks: seq<Chunk>, mem: Memory)
    requires Process(d, mem) && Sound(chunks, mem) && Flat(d.env(id)) && 0 < Size(d.env(id)) == |data| && w < ADDRESSES
    requires ReadUser(mem, w, |data|) == Some(data)
    ensures var shown := RenderValue(d, d.env(id), data, w, chunks, 3);
            && Complete(shown) && Faithful(shown, View(d, d.env(id), Live(mem, w, |data|), mem, 3))
            && shown == View(d, d.env(id), Live(mem, w, |data|), mem, 3)
  {
    hide RenderValue, View, Faithful, Complete, Flat;
    var t, img := d.env(id), Live(mem, w, |data|);
    assert WellFormed(t);
    FlatPlain(d, t, img, mem, 3);
    assert AgreesUpTo(data, img, Size(t));
    AgreesWhole(t, data, img);
    FlatComplete(d, t, data, w, chunks, 3);
    RenderFaithful(d, t, data, w, img, chunks, mem, 3);
    CompleteIsExact(RenderValue(d, t, data, w, chunks, 3), View(d, t, img, mem, 3));
  }

  lemma SelfFaithful(d: Decoder, id: TypeId, data: Bytes, w: nat, chunks: seq<Chunk>, mem: Memory)
    requires Process(d, mem) && Sound(chunks, mem) && Flat(d.env(id)) && 0 < Size(d.env(id)) == |data| && w < ADDRESSES
    requires ReadUser(mem, w, |data|) == Some(data)
    ensures var truth := View(d, d.env(id), Live(mem, w, |data|), mem, 3);
            Faithful(truth, truth)
  {
    FlatTargetShown(d, id, data, w, chunks, mem);
  }
}
