/** Auto-fetch is exact: of every planned variable exactly what its copies tell is shown. */
module ExactList {
  import opened Wrappers
  import opened Words
  import opened GoTypes
  import opened FetchRules
  import opened FetchPlan
  import opened TargetMemory
  import KernelFetch
  import opened Scatter
  import opened Snapshot
  import opened Render
  import opened LiveView
  import opened TypeRecipe
  import opened AutoFetch
  import opened Faithfulness
  import opened AutoFetchTheorem
  import opened Recipes
  import opened RecipeTheorem
  import opened WholeList
  import opened Exactness
  import opened Glimpses
  import opened ShownExactly
  import opened RecipeTexts

  // ---- itabs in register values ----

  /** The itab of every interface with methods in a register value is nil or can be read. */
  predicate ItabsRead(t: GoType, wi: nat, ctx: KernelFetch.PtRegs, mem: Memory)
  {
    match t
    case Named(b) => ItabsRead(b, wi, ctx, mem)
    case Iface(nonEmpty) => nonEmpty ==> ItabReadable(ctx(Reg(wi)), mem)
    case Struct(_, fields, _) => FieldItabsRead(fields, wi, ctx, mem)
    case _ => true
  }

  predicate FieldItabsRead(fields: seq<Field>, wi: nat, ctx: KernelFetch.PtRegs, mem: Memory)
  {
    fields != [] ==>
      ItabsRead(fields[0].typ, wi, ctx, mem) && FieldItabsRead(fields[1..], wi + AbiWordCount(fields[0].typ), ctx, mem)
  }

  predicate AnyFailed(leaves: seq<LeafData>)
  {
    exists w <- leaves :: w.readError
  }

  lemma AnyFailedAppend(a: seq<LeafData>, b: seq<LeafData>)
    ensures AnyFailed(a + b) <==> AnyFailed(a) || AnyFailed(b)
  {
    forall w | w in a || w in b
      ensures w in a + b
    {
    }
  }

  lemma {:induction false} WordsFail(t: GoType, name: string, wi: nat, ctx: KernelFetch.PtRegs, mem: Memory)
    requires AbiWordCount(t) > 0 && wi + AbiWordCount(t) <= |ABI_REGS|
    ensures AnyFailed(ExecAll(ctx, mem, WordSpecs(t, name, wi))) <==> !ItabsRead(t, wi, ctx, mem)
    decreases t
  {
    hide Reg;
    match t
    case Named(b) => WordsFail(b, name, wi, ctx, mem);
    case Iface(nonEmpty) => ItabFailed(nonEmpty, name, wi, ctx, mem);
    case Struct(_, fields, _) =>
      SupportedFields(fields);
      FieldWordsFail(fields, name, wi, ctx, mem);
    case _ =>
  }

  lemma ItabFailed(nonEmpty: bool, name: string, wi: nat, ctx: KernelFetch.PtRegs, mem: Memory)
    ensures AnyFailed(ExecAll(ctx, mem, WordSpecs(Iface(nonEmpty), name, wi))) <==> nonEmpty && !ItabReadable(ctx(Reg(wi)), mem)
  {
    hide Reg;
    var leaves := ExecAll(ctx, mem, WordSpecs(Iface(nonEmpty), name, wi));
    assert [Step(8, false)][1..] == [];
    assert leaves[0] in leaves && leaves == [leaves[0], leaves[1]];
  }

  lemma {:induction false} FieldWordsFail(fields: seq<Field>, name: string, wi: nat, ctx: KernelFetch.PtRegs, mem: Memory)
    requires AllSupported(fields) && wi + FieldWordCount(fields) <= |ABI_REGS|
    ensures AnyFailed(ExecAll(ctx, mem, FieldWordSpecs(fields, name, wi))) <==> !FieldItabsRead(fields, wi, ctx, mem)
    decreases fields
  {
    hide WordSpecs, AbiWordCount, AllSupported, ItabsRead, Exec, AnyFailed, Reg;
    if fields == [] {
      NoneFailed(ctx, mem);
    } else {
      var n, fieldName := AbiWordCount(fields[0].typ), name + "." + fields[0].name;
      FieldsStep(fields, name, wi);
      WordsFail(fields[0].typ, fieldName, wi, ctx, mem);
      FieldWordsFail(fields[1..], name, wi + n, ctx, mem);
      var first, rest := WordSpecs(fields[0].typ, fieldName, wi), FieldWordSpecs(fields[1..], name, wi + n);
      assert ExecAll(ctx, mem, first + rest) == ExecAll(ctx, mem, first) + ExecAll(ctx, mem, rest);
      AnyFailedAppend(ExecAll(ctx, mem, first), ExecAll(ctx, mem, rest));
    }
  }

  lemma NoneFailed(ctx: KernelFetch.PtRegs, mem: Memory)
    ensures !AnyFailed(ExecAll(ctx, mem, []))
  {
  }

  // ---- a variable ----

  /** Exactly what can be told of a variable from what is fetched for it. */
  function TopGlimpse(d: Decoder, t: GoType, wi: nat, val: Bytes, ctx: KernelFetch.PtRegs, mem: Memory, user: RecipeTable, room: nat): Rendered
  {
    var u := Underlying(t);
    if u.Ptr? then PointerGlimpseOf(d, u.target, ReadUint(val), mem)
    else if u.Iface? then IfaceGlimpse(d, val, mem, user, room)
    else if ItabsRead(u, wi, ctx, mem) then RegisterGlimpse(d, u, val, mem)
    else Unavailable
  }

  lemma VariableShownExactly(d: Decoder, e: Event, v: Variable, val: Bytes, wi: nat, off: nat, extra: nat)
    requires Process(d, e.mem) && Sent(e) && Covered(d.env, v.typ) && TopPlain(d, v.typ, val, e.mem) && Learned(d, e.user)
    requires VariableHeld(v.typ, val, wi, e.ctx, e.mem) && SliceAt(d.env, e.specs, off, v, wi) && |e.specs| <= MAX_FETCH_ARGS
    requires wi + AbiWordCount(v.typ) <= |ABI_REGS|
    requires || Quiet(d.env, v.typ, wi, e.ctx, e.mem, e.user)
             || (Underlying(v.typ).Iface? && OwnLeaves(EventOf(e), extra, IfaceOwed(e.mem, Generic(e), off, e.kernel)))
    ensures var value := PlannedValue(d.env, v.typ, v.name);
            var leaves := ExecAll(e.ctx, e.mem, ValueSpecs(d.env, v.typ, v.name, wi));
            && |leaves| == value.LeafCount()
            && RenderLeaves(d, value, leaves[..value.wordCount], leaves[value.wordCount..], EventOf(e), extra, e.user).rendered
               == TopGlimpse(d, v.typ, wi, val, e.ctx, e.mem, e.user, Room(EventOf(e), extra))
  {
    hide EventOf, RenderLeaves, Process, SameTable, Exec, TopPlain, VariableHeld, SliceAt, IfaceOwed, OwnLeaves, Learned, RegisterGlimpse,
         Covered, ValueSpecs, RulesFor, Quiet, KernelFetch.ValidRecipes, IfaceGlimpse, PointerGlimpseOf, WordSpecs, RegBlobs, ItabsRead;
    CoveredSupported(d.env, v.typ);
    UnderlyingFacts(v.typ);
    ValueSpecsCount(d.env, v.typ, v.name, wi);
    var u := Underlying(v.typ);
    if u.Ptr? {
      PointerShownExactly(d, v, wi, val, e.ctx, e.mem, EventOf(e), extra, e.user);
    } else if u.Iface? {
      InterfaceExactly(d, e, v, val, wi, off, extra);
    } else {
      RegisterExactly(d, e, v, val, wi, extra);
    }
  }

  lemma RegisterExactly(d: Decoder, e: Event, v: Variable, val: Bytes, wi: nat, extra: nat)
    requires Process(d, e.mem) && Sent(e) && Covered(d.env, v.typ) && TopPlain(d, v.typ, val, e.mem)
    requires VariableHeld(v.typ, val, wi, e.ctx, e.mem) && |e.specs| <= MAX_FETCH_ARGS
    requires wi + AbiWordCount(v.typ) <= |ABI_REGS| && !Underlying(v.typ).Ptr? && !Underlying(v.typ).Iface?
    ensures var value := PlannedValue(d.env, v.typ, v.name);
            var leaves := ExecAll(e.ctx, e.mem, ValueSpecs(d.env, v.typ, v.name, wi));
            && |leaves| == value.LeafCount()
            && RenderLeaves(d, value, leaves[..value.wordCount], leaves[value.wordCount..], EventOf(e), extra, e.user).rendered
               == if ItabsRead(Underlying(v.typ), wi, e.ctx, e.mem) then RegisterGlimpse(d, Underlying(v.typ), val, e.mem) else Unavailable
  {
    hide EventOf, RenderLeaves, Process, Exec, TopPlain, VariableHeld, RegisterGlimpse, Covered, WordSpecs, RegBlobs, ItabsRead;
    CoveredSupported(d.env, v.typ);
    UnderlyingFacts(v.typ);
    ValueSpecsCount(d.env, v.typ, v.name, wi);
    var u := Underlying(v.typ);
    RegisterShownExactly(d, v, wi, val, e.ctx, e.mem, EventOf(e), extra, e.user);
    WordSpecsCount(u, v.name, wi);
    ExecSplit(e.ctx, e.mem, WordSpecs(u, v.name, wi), RegBlobs(u, v.name, wi));
    WordsFail(u, v.name, wi, e.ctx, e.mem);
  }

  lemma CoveredSupported(env: TypeEnv, t: GoType)
    requires Covered(env, t)
    ensures AbiWordCount(t) > 0
  {
  }

  lemma InterfaceExactly(d: Decoder, e: Event, v: Variable, val: Bytes, wi: nat, off: nat, extra: nat)
    requires Process(d, e.mem) && Sent(e) && Covered(d.env, v.typ) && TopPlain(d, v.typ, val, e.mem) && Learned(d, e.user)
    requires VariableHeld(v.typ, val, wi, e.ctx, e.mem) && SliceAt(d.env, e.specs, off, v, wi) && |e.specs| <= MAX_FETCH_ARGS
    requires wi + 2 <= |ABI_REGS| && Underlying(v.typ).Iface?
    requires || Quiet(d.env, v.typ, wi, e.ctx, e.mem, e.user)
             || OwnLeaves(EventOf(e), extra, IfaceOwed(e.mem, Generic(e), off, e.kernel))
    ensures var leaves := ExecAll(e.ctx, e.mem, ValueSpecs(d.env, v.typ, v.name, wi));
            && |leaves| == 3
            && RenderLeaves(d, PlannedValue(d.env, v.typ, v.name), leaves[..2], leaves[2..], EventOf(e), extra, e.user).rendered
               == IfaceGlimpse(d, val, e.mem, e.user, Room(EventOf(e), extra))
  {
    hide EventOf, RenderLeaves, Process, SameTable, Stem, Exec, TopPlain, VariableHeld, SliceAt, IfaceOwed, OwnLeaves, Learned, IfaceGlimpse,
         DotFree, TypelessVar, Covered, WordSpecs, RegBlobs, ValueSpecs, RulesFor, Quiet;
    SameOwed(d.env, e, off, v, wi);
    IfaceParts(d.env, v, wi, e.ctx, e.mem);
    var leaves := ExecAll(e.ctx, e.mem, ValueSpecs(d.env, v.typ, v.name, wi));
    InterfaceShownExactly(d, v, wi, val, e.ctx, e.mem, leaves[..2], leaves[2..], EventOf(e), extra, e.user, e.kernel);
  }

  // ---- the whole list ----

  /** Auto-fetch is exact. Take any variable list with skipped variables anywhere, any registers, any
   *  memory and any recipes both sides have learned; compile, load, run, render. Of a planned variable
   *  in the registers the planner reads, whose recipe leaves nobody else takes, exactly that is shown
   *  which the fetched words and the copies of 64 bytes tell. */
  lemma AutoFetchExact(d: Decoder, vars: seq<Variable>, i: nat, val: Bytes, args: seq<FetchArg>, e: Event)
    requires Process(d, e.mem) && Probed(d.env, vars, args, e) && i < |vars| && IsPlanned(d.env, vars, i)
    requires InPlace(d, vars, i, val, e) && Undisturbed(d.env, vars, i, e) && Learned(d, e.user)
    ensures |e.specs| <= MAX_FETCH_ARGS && KernelFetch.ValidRecipes(e.kernel)
    ensures var k, wi := |KeptBefore(d.env, vars, i)|, PlannedWord(d.env, vars, i);
            && k < |ShownList(d, vars, e)|
            && ShownList(d, vars, e)[k]
               == NamedValue(vars[i].name, TopGlimpse(d, vars[i].typ, wi, val, e.ctx, e.mem, e.user, Room(EventOf(e), ExtraAt(d, vars, i, e))))
  {
    hide Probed, EventOf, OwnLeaves, TailAt, LaidOut, SliceAt, GoNames, IfaceOwed, PlanList, Kept, Orderly, LeafOf, WordOf, Learned, TopGlimpse,
         Plannable, ValueSpecs, Process, Covered, TopPlain, VariableHeld, Quiet,
         RenderLeaves, RenderList, SameTable, RulesFor, AbiWordCount, ValueCaptures, KernelFetch.ValidRecipes, KernelFetch.WithRecipes, AllValues;
    ProbedEvent(d.env, vars, args, e);
    ShownOf(d, vars, i, args, e);
    if !Quiet(d.env, vars[i].typ, PlannedWord(d.env, vars, i), e.ctx, e.mem, e.user) {
      RecipeLeavesLineUp(d, vars, i, args, e);
    }
    VariableShownExactly(d, e, vars[i], val, PlannedWord(d.env, vars, i), LeavesOf(d.env, KeptBefore(d.env, vars, i)), ExtraAt(d, vars, i, e));
  }

  // ---- against the live view ----

  /** A byte slice that is neither empty nor nil is shown with its length, its capacity and the text
   *  that is in memory if and only if 64 bytes can be read at its array, else without a text. So it is
   *  shown as it is if and only if they can, or the text itself cannot be read. */
  lemma ByteSliceShownIff(d: Decoder, v: Variable, name: string, wi: nat, val: Bytes, ctx: KernelFetch.PtRegs, mem: Memory,
                          all: seq<LeafData>, extra: nat, user: RecipeTable)
    requires Process(d, mem) && Covered(d.env, v.typ) && VariableHeld(v.typ, val, wi, ctx, mem) && wi + 3 <= |ABI_REGS|
    requires Underlying(v.typ) == Slice(name, true) && Signed64(ReadUint(val[8..16])) > 0 && ReadUint(val) != 0
    ensures var leaves := ExecAll(ctx, mem, ValueSpecs(d.env, v.typ, v.name, wi));
            var arr, len := ReadUint(val), Signed64(ReadUint(val[8..16]));
            var n := if len > 64 then 64 else len;
            && |leaves| == 4
            && var shown := RenderLeaves(d, PlannedValue(d.env, v.typ, v.name), leaves[..3], leaves[3..], all, extra, user).rendered;
               && shown == SliceView(name, len, Signed64(ReadUint(val[16..24])),
                                     if Copied(arr, mem) then Some(Text(ReadUser(mem, arr, n).GetOr([]), len > 64)) else None)
               && (shown == TopView(d, v.typ, val, mem) <==> Copied(arr, mem) || !Readable(mem, arr, n))
  {
    hide RenderLeaves, Glimpse, View, ReadUser, Readable, Exec, InRegisters, WordSpecs, RegBlobs;
    UnderlyingFacts(v.typ);
    var u := Underlying(v.typ);
    SliceFree(d, u, val, mem);
    RegisterShownExactly(d, v, wi, val, ctx, mem, all, extra, user);
    ValueSpecsCount(d.env, v.typ, v.name, wi);
    WordSpecsCount(u, v.name, wi);
    ExecSplit(ctx, mem, WordSpecs(u, v.name, wi), RegBlobs(u, v.name, wi));
    WordsFail(u, v.name, wi, ctx, mem);
    SliceGlimpse(d, name, val, mem);
    SliceSeen(d, name, val, mem);
  }

  lemma SliceFree(d: Decoder, u: GoType, val: Bytes, mem: Memory)
    requires u.Slice?
    ensures RegisterPlain(d, u, val, mem) && AsHeld(u) == u && AbiWordCount(u) == 3
  {
  }

  lemma SliceWords(val: Bytes)
    requires |val| >= 24
    ensures var img := Defined(val);
            && AllKnown(img, 0, 24) && WordAt(img, 0) == ReadUint(val) == WordIn(val, 0)
            && WordAt(img, 8) == ReadUint(val[8..16]) && WordAt(img, 16) == ReadUint(val[16..24])
  {
    var img := Defined(val);
    assert val[..8] == val[0..8] && val[8..16][..8] == val[8..16] && val[16..24][..8] == val[16..24];
    assert Known(img, 0, 8) == val[0..8] && Known(img, 8, 8) == val[8..16] && Known(img, 16, 8) == val[16..24];
  }

  /** What the one copy of a slice tells. */
  lemma SliceGlimpse(d: Decoder, name: string, val: Bytes, mem: Memory)
    requires |val| >= 24 && LowPageUnmapped(mem) && Signed64(ReadUint(val[8..16])) > 0 && ReadUint(val) != 0
    ensures var arr, len := ReadUint(val), Signed64(ReadUint(val[8..16]));
            var n := if len > 64 then 64 else len;
            RegisterGlimpse(d, Slice(name, true), val, mem)
            == SliceView(name, len, Signed64(ReadUint(val[16..24])),
                         if Copied(arr, mem) then Some(Text(ReadUser(mem, arr, n).GetOr([]), len > 64)) else None)
  {
    hide Readable, ReadUser, WordAt, WordIn, ReadUint;
    SliceWords(val);
    var arr, len := ReadUint(val), Signed64(ReadUint(val[8..16]));
    assert WordsIn(val, [0]) == [arr];
    OneCopySeen(arr, if len > 64 then 64 else len, mem);
  }

  /** A copy shows what lies at its own address. */
  lemma OneCopySeen(addr: nat, n: nat, mem: Memory)
    requires 0 < n <= 64
    ensures Seen(Copies([addr], mem), addr, n) <==> Copied(addr, mem)
    ensures Copied(addr, mem) ==> ReadUser(mem, addr, n).Some?
  {
    assert [addr][1..] == [];
    if Readable(mem, addr, 64) { ReadableFewer(mem, addr, n); }
  }

  lemma ReadableFewer(mem: Memory, addr: nat, n: nat)
    requires Readable(mem, addr, 64) && n <= 64
    ensures Readable(mem, addr, n)
  {
  }

  lemma SliceSeen(d: Decoder, name: string, val: Bytes, mem: Memory)
    requires |val| >= 24 && LowPageUnmapped(mem) && Signed64(ReadUint(val[8..16])) > 0 && ReadUint(val) != 0
    ensures var arr, len := ReadUint(val), Signed64(ReadUint(val[8..16]));
            var n := if len > 64 then 64 else len;
            RegisterView(d, Slice(name, true), val, mem)
            == SliceView(name, len, Signed64(ReadUint(val[16..24])),
                         if Readable(mem, arr, n) then Some(Text(ReadUser(mem, arr, n).GetOr([]), len > 64)) else None)
    ensures var len := Signed64(ReadUint(val[8..16]));
            Copied(ReadUint(val), mem) ==> Readable(mem, ReadUint(val), if len > 64 then 64 else len)
  {
    hide WordAt, ReadUint;
    SliceWords(val);
    var len := Signed64(ReadUint(val[8..16]));
    if Copied(ReadUint(val), mem) { ReadableFewer(mem, ReadUint(val), if len > 64 then 64 else len); }
  }

  /** A value in registers that leads to no interface is shown as it is if and only if nothing of it
   *  is missing from the copies behind its strings and slices. */
  lemma RegisterShownIff(d: Decoder, ids: iset<TypeId>, v: Variable, wi: nat, val: Bytes, ctx: KernelFetch.PtRegs, mem: Memory,
                         all: seq<LeafData>, extra: nat, user: RecipeTable)
    requires Process(d, mem) && Covered(d.env, v.typ) && VariableHeld(v.typ, val, wi, ctx, mem)
    requires wi + AbiWordCount(v.typ) <= |ABI_REGS| && !Underlying(v.typ).Ptr? && !Underlying(v.typ).Iface?
    requires InterfaceFree(Underlying(v.typ), ids) && InterfacesUnreachable(d, ids)
    ensures Size(Underlying(v.typ)) >= 0
    ensures var u := Underlying(v.typ);
            var words, captures := ExecAll(ctx, mem, WordSpecs(u, v.name, wi)), ExecAll(ctx, mem, RegBlobs(u, v.name, wi));
            RenderLeaves(d, PlannedValue(d.env, v.typ, v.name), words, captures, all, extra, user).rendered == TopView(d, v.typ, val, mem)
            <==> Whole(d, u, Defined(val), 0, Size(u), mem, Copies(WordsIn(val, TextOffsets(u, true)), mem), 0)
  {
    hide RenderLeaves, Glimpse, View, Exec, InRegisters, WordSpecs, RegBlobs, Whole, Copies, WordsIn, TextOffsets, InterfaceFree, WellFormed,
         InterfacesUnreachable, PlainReached, ItabsRead, Size;
    CoveredSupported(d.env, v.typ);
    UnderlyingFacts(v.typ);
    var u := Underlying(v.typ);
    WellFormedSize(u);
    FreeHeld(d, ids, u, Defined(val), mem);
    InterfaceFreePlain(d, ids, u, Defined(val), mem, 0);
    RegisterShownExactly(d, v, wi, val, ctx, mem, all, extra, user);
    WordsFail(u, v.name, wi, ctx, mem);
    FreeItabs(u, ids, wi, ctx, mem);
    GlimpseIsViewIff(d, ids, u, Defined(val), 0, Size(u), mem, Copies(WordsIn(val, TextOffsets(u, true)), mem), 0);
  }

  lemma {:induction false} FreeItabs(t: GoType, ids: iset<TypeId>, wi: nat, ctx: KernelFetch.PtRegs, mem: Memory)
    requires InterfaceFree(t, ids)
    ensures ItabsRead(t, wi, ctx, mem)
    decreases t
  {
    match t
    case Named(b) => FreeItabs(b, ids, wi, ctx, mem);
    case Struct(_, fields, _) => FieldsFreeItabs(fields, ids, wi, ctx, mem);
    case _ =>
  }

  lemma {:induction false} FieldsFreeItabs(fields: seq<Field>, ids: iset<TypeId>, wi: nat, ctx: KernelFetch.PtRegs, mem: Memory)
    requires forall f <- fields :: InterfaceFree(f.typ, ids)
    ensures FieldItabsRead(fields, wi, ctx, mem)
    decreases fields
  {
    if fields != [] {
      FreeItabs(fields[0].typ, ids, wi, ctx, mem);
      FieldsFreeItabs(fields[1..], ids, wi + AbiWordCount(fields[0].typ), ctx, mem);
    }
  }

  /** A pointer to an object that leads to no interface is shown as it is if and only if it is nil, or
   *  64 bytes can be read behind it and nothing of the object is missing from them and from the copies
   *  behind the strings and slices in them; or it is only shown as an address. */
  lemma ObjectShownIff(d: Decoder, ids: iset<TypeId>, v: Variable, id: TypeId, wi: nat, val: Bytes, ctx: KernelFetch.PtRegs, mem: Memory,
                       all: seq<LeafData>, extra: nat, user: RecipeTable)
    requires Process(d, mem) && Covered(d.env, v.typ) && VariableHeld(v.typ, val, wi, ctx, mem) && wi < |ABI_REGS|
    requires Underlying(v.typ) == Ptr(id) && InterfaceFree(d.env(id), ids) && InterfacesUnreachable(d, ids)
    ensures var leaves, p := ExecAll(ctx, mem, ValueSpecs(d.env, v.typ, v.name, wi)), ReadUint(val);
            && |leaves| > 0
            && (RenderLeaves(d, PlannedValue(d.env, v.typ, v.name), leaves[..1], leaves[1..], all, extra, user).rendered
                == TopView(d, v.typ, val, mem)
                <==> || p == 0 || Addressed(d.env(id))
                     || (Readable(mem, p, 64)
                         && var own := ReadUser(mem, p, 64).value;
                            Whole(d, d.env(id), ObjectImage(d, id, p, mem), p, 64, mem,
                                  [p] + Copies(WordsIn(own, TextOffsets(d.env(id), true)), mem), 0)))
  {
    hide RenderLeaves, Glimpse, View, Exec, InRegisters, ValueSpecs, Whole, Copies, WordsIn, TextOffsets, InterfaceFree, WellFormed,
         InterfacesUnreachable, PlainReached, ObjectImage, Readable, NoneKnown, ReadUser;
    var p := ReadUint(val);
    AddressedIff(d.env(id));
    UnderlyingFacts(v.typ);
    InterfaceFreePlain(d, ids, d.env(id), ObjectImage(d, id, p, mem), mem, 0);
    FreeUnknown(user, d.env(id), ids, Exec(ctx, mem, BlobAt("", MemLoc(Reg(wi), [], true))).data);
    PointerShownExactly(d, v, wi, val, ctx, mem, all, extra, user);
    assert WellFormed(d.env(id));
    if Readable(mem, p, 64) {
      var own := ReadUser(mem, p, 64).value;
      GlimpseIsViewIff(d, ids, d.env(id), ObjectImage(d, id, p, mem), p, 64, mem,
                       [p] + Copies(WordsIn(own, TextOffsets(d.env(id), true)), mem), 0);
    }
  }

  /** Pointers to these are shown as addresses: numbers, pointers, maps, channels and what is not
   *  supported. */
  predicate Addressed(t: GoType)
  {
    match Underlying(t)
    case Scalar(_, _) => true
    case Ptr(_) => true
    case Opaque(_) => true
    case Struct(name, _, _) => name == "runtime.hmap" || name == "runtime.hchan"
    case _ => false
  }

  lemma AddressedIff(t: GoType)
    ensures Addressed(t) <==> !IsCapturedStruct(t)
  {
    UnderlyingTwice(t);
    UnnamedUnder(t);
  }

  lemma {:induction false} UnnamedUnder(t: GoType)
    ensures !Underlying(t).Named?
  {
    if t.Named? { UnnamedUnder(t.base); }
  }

  lemma {:induction false} FreeUnknown(user: RecipeTable, t: GoType, ids: iset<TypeId>, data: Bytes)
    requires InterfaceFree(t, ids)
    ensures NoneKnown(user, t, data)
    decreases t
  {
    match t
    case Named(b) => FreeUnknown(user, b, ids, data);
    case Struct(_, fields, _) =>
      forall f | f in fields
        ensures NoneKnown(user, f.typ, FieldMem(data, f.offset))
      {
        FreeUnknown(user, f.typ, ids, FieldMem(data, f.offset));
      }
    case _ =>
  }

  // ---- interfaces with a learned type ----

  function FirstOf(texts: seq<int>, room: nat): seq<int>
  {
    if |texts| > room then texts[..room] else texts
  }

  /** As long as the texts' words lie in the 64 bytes behind the data word, the copies are those 64
   *  bytes and the 64 bytes behind each of the first words for which there is room. */
  lemma {:induction false} TextsCopied(p: nat, more: seq<nat>, texts: seq<int>, mem: Memory, room: nat)
    requires Copied(p, mem) && forall i | 0 <= i < |texts| :: 0 <= texts[i] && texts[i] + 8 <= 64
    ensures WithTexts([p] + more, p, texts, mem, room)
         == [p] + more + Copies(WordsIn(ReadUser(mem, p, 64).value, FirstOf(texts, room)), mem)
    decreases texts
  {
    hide ReadUser, Readable, Seen, LiveWord, WordIn, Copies, WordsIn, FirstOf;
    var own := ReadUser(mem, p, 64).value;
    if texts == [] || room == 0 {
      NoneFirst(own, texts, room, mem);
      assert [p] + more + [] == [p] + more;
    } else {
      var word := WordIn(own, texts[0]);
      TextWord(p, [p] + more, texts[0], mem);
      TextsCopied(p, more + Copies([word], mem), texts[1..], mem, room - 1);
      WordsFirst(own, texts, room);
      var rest := WordsIn(own, FirstOf(texts[1..], room - 1));
      CopiesAppend([word], rest, mem);
      Regrouped([p], more, Copies([word], mem), Copies(rest, mem));
    }
  }

  lemma WordsFirst(own: Bytes, texts: seq<int>, room: nat)
    requires texts != [] && room > 0
    ensures WordsIn(own, FirstOf(texts, room)) == [WordIn(own, texts[0])] + WordsIn(own, FirstOf(texts[1..], room - 1))
  {
    hide WordIn;
    assert FirstOf(texts, room) == [texts[0]] + FirstOf(texts[1..], room - 1);
  }

  lemma Regrouped(a: seq<nat>, b: seq<nat>, c: seq<nat>, d: seq<nat>)
    ensures a + (b + c) == (a + b) + c && a + (b + c) + d == a + b + (c + d)
  {
  }

  lemma NoneFirst(own: Bytes, texts: seq<int>, room: nat, mem: Memory)
    requires texts == [] || room == 0
    ensures Copies(WordsIn(own, FirstOf(texts, room)), mem) == []
  {
    assert FirstOf(texts, room) == [];
  }

  lemma TextWord(p: nat, copies: seq<nat>, o: int, mem: Memory)
    requires Copied(p, mem) && copies != [] && copies[0] == p && 0 <= o && o + 8 <= 64
    ensures var at := (p + o) % ADDRESSES;
            Seen(copies, at, 8) && LiveWord(mem, at) == Some(WordIn(ReadUser(mem, p, 64).value, o))
  {
    var at := (p + o) % ADDRESSES;
    assert at == p + o;
    var own := ReadUser(mem, p, 64).value;
    forall i | 0 <= i < 8
      ensures At(at, i) in mem && mem[At(at, i)] == own[o + i]
    {
      assert At(at, i) == At(p, o + i);
    }
    assert ReadUser(mem, at, 8).value == own[o..o + 8];
  }

  /** An interface's value is all there: a nil pointer; or behind its data word nothing is missing from
   *  the copies; or it is nothing that could be shown. */
  predicate WholeDynamic(d: Decoder, dyn: GoType, p: nat, mem: Memory, copies: seq<nat>)
  {
    var size := Size(dyn);
    if IsDirect(dyn) then
      (Underlying(dyn).Ptr? && p == 0) || Whole(d, dyn, Defined(PutUint64(p)), p, 8, mem, copies, 1)
    else
      || p == 0 || size <= 0 || size > 4096
      || (if Seen(copies, p, size) then Whole(d, dyn, Live(mem, p, size), p, size, mem, copies, 1)
          else !Underlying(dyn).Struct? && Whole(d, dyn, Live(mem, p, size), p, 0, mem, copies, 1))
  }

  /** An interface with a value of a type that leads to no other interface is shown as it is if and only
   *  if that value is all there in the copy behind the data word and those of the type's recipe. */
  lemma InterfaceShownIff(d: Decoder, ids: iset<TypeId>, t: GoType, dyn: GoType, val: Bytes, mem: Memory, user: RecipeTable, room: nat)
    requires Process(d, mem) && Underlying(t).Iface? && 16 <= |val| && InterfaceFree(dyn, ids) && InterfacesUnreachable(d, ids)
    requires WordIn(val, 0) != 0 && d.resolve(WordIn(val, 0)) == Some(dyn)
    ensures var p := WordIn(val, 8);
            IfaceGlimpse(d, val, mem, user, room) == TopView(d, t, val, mem)
            <==> WholeDynamic(d, dyn, p, mem, WithTexts(Copies([p], mem), p, KnownTexts(d, user, WordIn(val, 0)), mem, room))
  {
    hide WithTexts, KnownTexts, Copies, DynamicGlimpse, DynamicView, WholeDynamic, InterfaceFree, InterfacesUnreachable, WordIn, WordAt;
    var p, img := WordIn(val, 8), Defined(val);
    IfaceWordsOf(val);
    var copies := WithTexts(Copies([p], mem), p, KnownTexts(d, user, WordIn(val, 0)), mem, room);
    DynamicWhole(d, ids, dyn, p, mem, copies);
    assert IfaceGlimpse(d, val, mem, user, room) == DynamicGlimpse(d, dyn, p, mem, copies, 1);
    assert TopView(d, t, val, mem) == DynamicView(d, dyn, p, mem, 1);
  }

  lemma IfaceWordsOf(val: Bytes)
    requires 16 <= |val|
    ensures var img := Defined(val);
            AllKnown(img, 0, 16) && WordAt(img, 0) == WordIn(val, 0) && WordAt(img, 8) == WordIn(val, 8)
  {
    var img := Defined(val);
    assert Known(img, 0, 8) == val[0..8] && Known(img, 8, 8) == val[8..16];
  }

  lemma DynamicWhole(d: Decoder, ids: iset<TypeId>, dyn: GoType, p: nat, mem: Memory, copies: seq<nat>)
    requires WellFormed(dyn) && WellFormedEnv(d.env) && InterfaceFree(dyn, ids) && InterfacesUnreachable(d, ids)
    ensures DynamicGlimpse(d, dyn, p, mem, copies, 1) == DynamicView(d, dyn, p, mem, 1) <==> WholeDynamic(d, dyn, p, mem, copies)
  {
    hide Glimpse, View, Whole, Seen, Live, InterfaceFree, InterfacesUnreachable, WellFormed, WellFormedEnv;
    var size := Size(dyn);
    GlimpseIsViewIff(d, ids, dyn, Defined(PutUint64(p)), p, 8, mem, copies, 1);
    if 0 < size {
      GlimpseIsViewIff(d, ids, dyn, Live(mem, p, size), p, size, mem, copies, 1);
      GlimpseIsViewIff(d, ids, dyn, Live(mem, p, size), p, 0, mem, copies, 1);
      NothingInHand(d, ids, dyn, Live(mem, p, size), p, mem, copies, 1);
    }
  }

  /** `errors.New`'s value: a pointer to a struct of one string. */
  predicate ErrorString(env: TypeEnv, dyn: GoType, id: TypeId, name: string, f: Field)
  {
    dyn == Ptr(id) && env(id) == Struct(name, [f], 16) && f.typ == Str && f.offset == 0
  }

  /** The recipe of such a type is one rule: 64 bytes behind the string's data pointer. */
  lemma ErrorStringRecipe(env: TypeEnv, dyn: GoType, id: TypeId, name: string, f: Field)
    requires ErrorString(env, dyn, id, name, f)
    ensures CompileTypeRecipe(env, dyn) == [RelRule(64, [Step(0, true)])] && DynamicTexts(env, dyn) == [0]
  {
    assert [f][1..] == [];
    var one := [RelRule(64, [Step(0, true)])];
    assert [] + [Step(0, true)] == [Step(0, true)];
    assert RelMemCaptures(Str, []) == one && one + [] == one;
    assert FieldRelMemCaptures([f], []) == RelMemCaptures(Str, []) + FieldRelMemCaptures([], []) == one;
    assert FieldTextOffsets([f], false) == Shifted([0], 0) + [] == [0];
  }

  /** The text of an error in an interface, its type being learned: it is shown, and as it is in memory,
   *  if and only if 64 bytes can be read behind the pointer and behind the text, and one recipe leaf is
   *  left. */
  lemma ErrorTextShownIff(d: Decoder, val: Bytes, mem: Memory, user: RecipeTable, room: nat, id: TypeId, name: string, f: Field)
    requires Process(d, mem) && 16 <= |val| && WordIn(val, 0) != 0 && WordIn(val, 0) in user && Visible(d, f)
    requires d.resolve(WordIn(val, 0)).Some? && ErrorString(d.env, d.resolve(WordIn(val, 0)).value, id, name, f)
    requires Copied(WordIn(val, 8), mem)
    requires var p, own := WordIn(val, 8), ReadUser(mem, WordIn(val, 8), 64).value;
             Signed64(WordIn(own, 8)) > 0 && !(p <= WordIn(own, 0) < p + 64)
    ensures var own := ReadUser(mem, WordIn(val, 8), 64).value;
            var q, len := WordIn(own, 0), Signed64(WordIn(own, 8));
            var n := if len > 64 then 64 else len;
            IfaceGlimpse(d, val, mem, user, room)
            == Ref(Fields(name, [NamedValue(f.name, if room > 0 && Copied(q, mem) then Text(ReadUser(mem, q, n).GetOr([]), len > 64)
                                                    else Unavailable)]))
  {
    hide ReadUser, Readable, WordIn, Glimpse, Seen, WithTexts, KnownTexts, WordAt;
    var p, dyn := WordIn(val, 8), d.resolve(WordIn(val, 0)).value;
    var own := ReadUser(mem, p, 64).value;
    IfaceWordsOf(val);
    ErrorStringRecipe(d.env, dyn, id, name, f);
    ErrorCopies(d, val, mem, user, room, dyn);
    var q := WordIn(own, 0);
    var copies := [p] + Copies(if room > 0 then [q] else [], mem);
    ErrorGlimpse(d, id, name, f, p, mem, copies);
    ErrorText(p, q, if Signed64(WordIn(own, 8)) > 64 then 64 else Signed64(WordIn(own, 8)), room > 0, mem);
    InterfaceGlimpse(d, val, mem, copies, dyn);
  }

  lemma InterfaceGlimpse(d: Decoder, val: Bytes, mem: Memory, copies: seq<nat>, dyn: GoType)
    requires 16 <= |val| && WordIn(val, 0) != 0 && d.resolve(WordIn(val, 0)) == Some(dyn)
    ensures Glimpse(d, Iface(false), Defined(val), 0, 16, mem, copies, 0) == DynamicGlimpse(d, dyn, WordIn(val, 8), mem, copies, 1)
  {
    hide DynamicGlimpse, WordAt, WordIn;
    IfaceWordsOf(val);
  }

  lemma ErrorCopies(d: Decoder, val: Bytes, mem: Memory, user: RecipeTable, room: nat, dyn: GoType)
    requires WordIn(val, 0) in user && d.resolve(WordIn(val, 0)) == Some(dyn) && DynamicTexts(d.env, dyn) == [0] && Copied(WordIn(val, 8), mem)
    ensures var p := WordIn(val, 8);
            var own := ReadUser(mem, p, 64).value;
            WithTexts(Copies([p], mem), p, KnownTexts(d, user, WordIn(val, 0)), mem, room)
            == [p] + Copies(if room > 0 then [WordIn(own, 0)] else [], mem)
  {
    hide ReadUser, Readable, WordIn, WithTexts;
    var p := WordIn(val, 8);
    var own := ReadUser(mem, p, 64).value;
    assert [p][1..] == [] && Copies([p], mem) == [p] && [p] + [] == [p];
    TextsCopied(p, [], [0], mem, room);
    assert FirstOf([0], room) == if room > 0 then [0] else [];
    assert WordsIn(own, FirstOf([0], room)) == if room > 0 then [WordIn(own, 0)] else [];
  }

  lemma ErrorGlimpse(d: Decoder, id: TypeId, name: string, f: Field, p: nat, mem: Memory, copies: seq<nat>)
    requires ErrorString(d.env, Ptr(id), id, name, f) && Visible(d, f) && Copied(p, mem) && copies != [] && copies[0] == p
    requires Signed64(WordIn(ReadUser(mem, p, 64).value, 8)) > 0
    ensures var own := ReadUser(mem, p, 64).value;
            DynamicGlimpse(d, Ptr(id), p, mem, copies, 1)
            == Ref(Fields(name, [NamedValue(f.name, SeenText(mem, copies, WordIn(own, 0), Signed64(WordIn(own, 8))).GetOr(Unavailable))]))
  {
    hide ReadUser, Readable, WordIn, SeenText, Glimpse, WordAt, Live;
    var word := Defined(PutUint64(p));
    PutValue(p);
    assert AllKnown(word, 0, 8) && WordAt(word, 0) == p by { OneWordSeen(p); }
    assert Seen(copies, p, 16);
    ErrorObject(d, id, name, f, p, mem, copies);
    PointerSeen(d, id, p, mem, copies);
  }

  lemma OneWordSeen(p: nat)
    requires p < ADDRESSES
    ensures AllKnown(Defined(PutUint64(p)), 0, 8) && WordAt(Defined(PutUint64(p)), 0) == p
  {
    hide ToBytes;
    PutValue(p);
    assert Known(Defined(PutUint64(p)), 0, 8) == PutUint64(p);
  }

  lemma PointerSeen(d: Decoder, id: TypeId, p: nat, mem: Memory, copies: seq<nat>)
    requires 0 < p < ADDRESSES && 0 < Size(d.env(id)) <= 4096 && Seen(copies, p, Size(d.env(id)))
    ensures DynamicGlimpse(d, Ptr(id), p, mem, copies, 1)
         == Ref(Glimpse(d, d.env(id), Live(mem, p, Size(d.env(id))), p, Size(d.env(id)), mem, copies, 2))
  {
    hide Live, Seen;
    OneWordSeen(p);
  }

  lemma ErrorObject(d: Decoder, id: TypeId, name: string, f: Field, p: nat, mem: Memory, copies: seq<nat>)
    requires ErrorString(d.env, Ptr(id), id, name, f) && Visible(d, f) && Copied(p, mem)
    requires Signed64(WordIn(ReadUser(mem, p, 64).value, 8)) > 0
    ensures var own := ReadUser(mem, p, 64).value;
            Glimpse(d, d.env(id), Live(mem, p, 16), p, 16, mem, copies, 2)
            == Fields(name, [NamedValue(f.name, SeenText(mem, copies, WordIn(own, 0), Signed64(WordIn(own, 8))).GetOr(Unavailable))])
  {
    hide SeenText;
    var own, img := ReadUser(mem, p, 64).value, Live(mem, p, 16);
    assert forall i | 0 <= i < 16 :: img[i] == Some(own[i]);
    assert Drop(img, 0) == img;
    assert Known(img, 0, 8) == own[0..8] && Known(img, 8, 8) == own[8..16];
    assert [f][1..] == [];
    var rest := FieldGlimpses(d, [], img, p, 16, mem, copies, 3);
    assert InHand(16, p, 16, copies) == 16 && FieldInHand(f, p, 16, copies) == 16;
    assert AllKnown(img, 0, 16) && WordAt(img, 0) == WordIn(own, 0) && WordAt(img, 8) == WordIn(own, 8);
    assert FieldGlimpses(d, [f], img, p, 16, mem, copies, 3)
        == [NamedValue(f.name, Glimpse(d, Str, img, (p + 0) % ADDRESSES, 16, mem, copies, 3))] + rest;
  }

  lemma ErrorText(p: nat, q: nat, n: nat, room: bool, mem: Memory)
    requires Copied(p, mem) && !(p <= q < p + 64) && 0 < n <= 64
    ensures Seen([p] + Copies(if room then [q] else [], mem), q, n) <==> room && Copied(q, mem)
    ensures Copied(q, mem) ==> ReadUser(mem, q, n).Some?
  {
    hide ReadUser;
    OneCopySeen(q, n, mem);
    var copies := Copies(if room then [q] else [], mem);
    assert ([p] + copies)[1..] == copies;
  }
}
