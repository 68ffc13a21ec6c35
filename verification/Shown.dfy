/** Exactly what is shown of a variable, of any kind. */
module ShownExactly {
  import opened Wrappers
  import opened Words
  import opened GoTypes
  import opened FetchRules
  import opened FetchPlan
  import opened TargetMemory
  import KernelFetch
  import opened Scatter
  import opened Snapshot
  import opened Render
  import opened LiveView
  import opened TypeRecipe
  import opened AutoFetch
  import opened Faithfulness
  import opened AutoFetchTheorem
  import opened Recipes
  import opened RecipeTheorem
  import opened Exactness
  import opened Glimpses

  // ---- what a value leads to ----

  /** Where in a value the words lie that lead to its texts: the first words of its strings and
   *  slices; and the second words of its interfaces, if asked for. */
  function TextOffsets(t: GoType, ifaces: bool): seq<int>
  {
    match t
    case Named(b) => TextOffsets(b, ifaces)
    case Str => [0]
    case Slice(_, _) => [0]
    case Iface(_) => if ifaces then [8] else []
    case Struct(_, fields, _) => FieldTextOffsets(fields, ifaces)
    case _ => []
  }

  function FieldTextOffsets(fields: seq<Field>, ifaces: bool): seq<int>
  {
    if fields == [] then []
    else Shifted(TextOffsets(fields[0].typ, ifaces), fields[0].offset) + FieldTextOffsets(fields[1..], ifaces)
  }

  function Shifted(offsets: seq<int>, base: int): (r: seq<int>)
    ensures |r| == |offsets| && forall i | 0 <= i < |r| :: r[i] == offsets[i] + base
  {
    seq(|offsets|, i requires 0 <= i < |offsets| => offsets[i] + base)
  }

  /** The word at an offset, 0 if it is not within the bytes. */
  function WordIn(b: Bytes, offset: int): nat
  {
    if 0 <= offset <= |b| - 8 then LittleEndian(b[offset..offset + 8]) else 0
  }

  function WordsIn(b: Bytes, offsets: seq<int>): (words: seq<nat>)
    ensures |words| == |offsets| && forall i | 0 <= i < |words| :: words[i] == WordIn(b, offsets[i])
  {
    seq(|offsets|, i requires 0 <= i < |offsets| => WordIn(b, offsets[i]))
  }

  /** The 64 bytes at an address can be copied. */
  predicate CanCopy(addr: nat, mem: Memory)
  {
    addr != 0 && Readable(mem, addr, COPY)
  }

  /** Those of the addresses at which 64 bytes can be copied. */
  function Copies(addrs: seq<nat>, mem: Memory): seq<nat>
  {
    if addrs == [] then []
    else (if CanCopy(addrs[0], mem) then [addrs[0]] else []) + Copies(addrs[1..], mem)
  }

  // ---- the snapshot holds exactly these copies ----

  /** A leaf is bound at the address only if 64 bytes can be copied there. */
  ghost predicate Copying(addr: nat, leaf: LeafData, mem: Memory)
  {
    |leaf.data| == COPY && (addr != 0 ==> (leaf.isNil || leaf.readError <==> !Readable(mem, addr, COPY)))
  }

  lemma {:induction false} PutsMirror(addrs: seq<nat>, leaves: seq<LeafData>, mem: Memory)
    requires |addrs| <= |leaves| && forall i | 0 <= i < |addrs| :: Copying(addrs[i], leaves[i], mem)
    ensures Mirrors(Puts(addrs, leaves), Copies(addrs, mem))
  {
    hide Readable;
    if addrs != [] {
      assert Copying(addrs[0], leaves[0], mem);
      forall i | 0 <= i < |addrs| - 1
        ensures Copying(addrs[1..][i], leaves[1..][i], mem)
      {
        assert Copying(addrs[i + 1], leaves[i + 1], mem);
      }
      PutsMirror(addrs[1..], leaves[1..], mem);
    }
  }

  lemma {:induction false} CopiesAppend(a: seq<nat>, b: seq<nat>, mem: Memory)
    ensures Copies(a + b, mem) == Copies(a, mem) + Copies(b, mem)
  {
    hide CanCopy;
    if a == [] {
      assert a + b == b;
    } else {
      assert (a + b)[0] == a[0] && (a + b)[1..] == a[1..] + b;
      CopiesAppend(a[1..], b, mem);
    }
  }

  lemma MirrorsAppend(a: seq<Chunk>, x: seq<nat>, b: seq<Chunk>, y: seq<nat>)
    requires Mirrors(a, x) && Mirrors(b, y)
    ensures Mirrors(a + b, x + y)
  {
  }

  // ---- the decoder's addresses are these words ----

  lemma WordInField(b: Bytes, base: int, offset: int)
    requires 0 <= base && 0 <= offset
    ensures WordIn(FieldMem(b, base), offset) == WordIn(b, base + offset)
  {
    if base + offset + 8 <= |b| {
      assert b[base..][offset..offset + 8] == b[base + offset..base + offset + 8];
    }
  }

  lemma WordsInField(b: Bytes, base: int, offsets: seq<int>)
    requires 0 <= base && forall o <- offsets :: 0 <= o
    ensures WordsIn(FieldMem(b, base), offsets) == WordsIn(b, Shifted(offsets, base))
  {
    hide WordIn;
    forall i | 0 <= i < |offsets|
      ensures WordIn(FieldMem(b, base), offsets[i]) == WordIn(b, Shifted(offsets, base)[i])
    {
      assert offsets[i] in offsets;
      WordInField(b, base, offsets[i]);
    }
  }

  lemma WordsAppend(b: Bytes, x: seq<int>, y: seq<int>)
    ensures WordsIn(b, x + y) == WordsIn(b, x) + WordsIn(b, y)
  {
    hide WordIn;
  }

  lemma {:induction false} OffsetsInside(t: GoType, ifaces: bool)
    requires WellFormed(t)
    ensures forall o <- TextOffsets(t, ifaces) :: 0 <= o && o + 8 <= Size(t)
    decreases t
  {
    match t
    case Named(b) => OffsetsInside(b, ifaces);
    case Struct(_, fields, size) => FieldOffsetsInside(fields, size, ifaces);
    case _ =>
  }

  lemma {:induction false} FieldOffsetsInside(fields: seq<Field>, size: int, ifaces: bool)
    requires forall f <- fields :: FieldFits(f, size) && WellFormed(f.typ)
    ensures forall o <- FieldTextOffsets(fields, ifaces) :: 0 <= o && o + 8 <= size
    decreases fields
  {
    hide TextOffsets, WellFormed, Size;
    if fields != [] {
      assert fields[0] in fields && FieldFits(fields[0], size);
      OffsetsInside(fields[0].typ, ifaces);
      FieldOffsetsInside(fields[1..], size, ifaces);
      assert forall i | 0 <= i < |TextOffsets(fields[0].typ, ifaces)| :: TextOffsets(fields[0].typ, ifaces)[i] in TextOffsets(fields[0].typ, ifaces);
    }
  }

  lemma WordIsFirst(b: Bytes)
    ensures WordIn(b, 0) == Snapshot.FirstWord(b) && WordIn(b, 8) == Snapshot.SecondWord(b)
  {
    if |b| >= 8 { assert b[0..8] == b[..8]; }
    if |b| >= 16 { assert b[8..][..8] == b[8..16]; }
  }

  lemma {:induction false} RegAddrsAreWords(t: GoType, b: Bytes)
    requires WellFormed(t)
    ensures RegAddrs(t, b) == WordsIn(b, TextOffsets(t, true))
    decreases t
  {
    hide WordIn;
    WordIsFirst(b);
    match t
    case Named(u) => RegAddrsAreWords(u, b);
    case Struct(_, fields, size) => FieldRegAddrsAreWords(fields, size, b);
    case _ =>
  }

  lemma {:induction false} FieldRegAddrsAreWords(fields: seq<Field>, size: int, b: Bytes)
    requires forall f <- fields :: FieldFits(f, size) && WellFormed(f.typ)
    ensures FieldRegAddrs(fields, b) == WordsIn(b, FieldTextOffsets(fields, true))
    decreases fields
  {
    hide RegAddrs, TextOffsets, WellFormed, Size, WordIn, WordsIn, Shifted;
    if fields != [] {
      var f := fields[0];
      assert f in fields && FieldFits(f, size);
      RegAddrsAreWords(f.typ, FieldMem(b, f.offset));
      OffsetsInside(f.typ, true);
      WordsInField(b, f.offset, TextOffsets(f.typ, true));
      FieldRegAddrsAreWords(fields[1..], size, b);
      WordsAppend(b, Shifted(TextOffsets(f.typ, true), f.offset), FieldTextOffsets(fields[1..], true));
    }
  }

  /** An object's addresses are the words too, but for the leaves that are bound nowhere. */
  lemma {:induction false} MemAddrsAreWords(t: GoType, b: Bytes, mem: Memory)
    requires WellFormed(t) && NoItabs(t)
    ensures Copies(MemAddrs(t, b), mem) == Copies(WordsIn(b, TextOffsets(t, true)), mem)
    decreases t
  {
    hide WordIn, Readable;
    WordIsFirst(b);
    match t
    case Named(u) => MemAddrsAreWords(u, b, mem);
    case Struct(_, fields, size) => FieldMemAddrsAreWords(fields, size, b, mem);
    case Iface(_) =>
      var addrs := [0, Snapshot.SecondWord(b)];
      assert MemAddrs(t, b) == addrs && addrs[1..] == [Snapshot.SecondWord(b)] && addrs[1..][1..] == [];
      assert WordsIn(b, [8]) == [Snapshot.SecondWord(b)] && [Snapshot.SecondWord(b)][1..] == [];
    case _ =>
  }

  lemma {:induction false} FieldMemAddrsAreWords(fields: seq<Field>, size: int, b: Bytes, mem: Memory)
    requires forall f <- fields :: FieldFits(f, size) && WellFormed(f.typ) && NoItabs(f.typ)
    ensures Copies(FieldMemAddrs(fields, b), mem) == Copies(WordsIn(b, FieldTextOffsets(fields, true)), mem)
    decreases fields
  {
    hide MemAddrs, TextOffsets, WellFormed, Size, NoItabs, WordIn, WordsIn, Shifted;
    if fields != [] {
      var f := fields[0];
      assert f in fields && FieldFits(f, size);
      MemAddrsAreWords(f.typ, FieldMem(b, f.offset), mem);
      OffsetsInside(f.typ, true);
      WordsInField(b, f.offset, TextOffsets(f.typ, true));
      FieldMemAddrsAreWords(fields[1..], size, b, mem);
      CopiesAppend(MemAddrs(f.typ, FieldMem(b, f.offset)), FieldMemAddrs(fields[1..], b), mem);
      var first := Shifted(TextOffsets(f.typ, true), f.offset);
      WordsAppend(b, first, FieldTextOffsets(fields[1..], true));
      CopiesAppend(WordsIn(b, first), WordsIn(b, FieldTextOffsets(fields[1..], true)), mem);
    }
  }

  // ---- values held in registers ----

  lemma HeldGlimpse(d: Decoder, u: GoType, data: Bytes, have: nat, val: Bytes, chunks: seq<Chunk>, copies: seq<nat>, mem: Memory)
    requires Process(d, mem) && Sound(chunks, mem) && Mirrors(chunks, copies)
    requires WellFormed(u) && Agrees(u, data, Defined(val)) && SameInHand(u, |data|, have)
    requires Size(u) <= LOW_PAGE && Size(u) <= |val| && 0 < |data| && Aligned(u, data)
    requires RegisterPlain(d, u, val, mem)
    ensures RenderValue(d, u, data, 0, chunks, 0) == Glimpse(d, AsHeld(u), Defined(val), 0, have, mem, copies, 0)
  {
    hide RenderValue, Glimpse, Agrees, WellFormed, PlainReached, RegisterTypes, AsHeld, Size, HasPtr, Sound, Mirrors;
    HeldLayout(u);
    HeldWellFormed(u);
    AgreesHeld(u, data, Defined(val));
    RenderIsGlimpse(d, AsHeld(u), data, have, 0, Defined(val), chunks, copies, mem, 0);
    RenderHeld(d, u, data, 0, Defined(val), chunks, mem, 0);
  }

  /** A leaf copied from where a register points. */
  lemma BlobCopies(ctx: KernelFetch.PtRegs, mem: Memory, s: ArgSpec, bound: nat)
    requires BoundAtRegister(ctx, s, bound)
    ensures Copying(bound, Exec(ctx, mem, s), mem)
  {
    hide Exec, Readable;
    assert s == BlobAt(s.name, MemLoc(s.loc.reg, [], s.loc.nilCheck));
    BlobLeaf(ctx, mem, s.name, s.loc.reg, s.loc.nilCheck);
  }

  lemma SameBound(ctx: KernelFetch.PtRegs, blobs: seq<ArgSpec>, a: seq<nat>, b: seq<nat>)
    requires BoundAtRegisters(ctx, blobs, a) && BoundAtRegisters(ctx, blobs, b)
    ensures a == b
  {
    forall i | 0 <= i < |a|
      ensures a[i] == b[i]
    {
      assert BoundAtRegister(ctx, blobs[i], a[i]) && BoundAtRegister(ctx, blobs[i], b[i]);
    }
  }

  /** The snapshot of a register value: a copy for each word of the value that leads to one. */
  lemma RegisterCopies(u: GoType, name: string, wi: nat, val: Bytes, img: Bytes, words: Bytes, ctx: KernelFetch.PtRegs, mem: Memory)
    requires WellFormed(u) && 0 < AbiWordCount(u) && wi + AbiWordCount(u) <= |ABI_REGS|
    requires WordsAre(ctx, mem, WordSpecs(u, name, wi), words, 0)
    requires Flattens(u, 0, val, words, 0) && Flattens(u, 0, img, words, 0)
    ensures |RegAddrs(u, img)| == |RegBlobs(u, name, wi)|
    ensures var chunks := Puts(RegAddrs(u, img), ExecAll(ctx, mem, RegBlobs(u, name, wi)));
            Sound(chunks, mem) && Mirrors(chunks, Copies(WordsIn(val, TextOffsets(u, true)), mem))
  {
    hide WellFormed, Flattens, WordsAre, WordSpecs, Exec, Copies, WordsIn, TextOffsets, Mirrors, Sound, Puts, BoundAtRegister;
    var blobs := RegBlobs(u, name, wi);
    assert FieldMem(img, 0) == img && FieldMem(val, 0) == val;
    RegPathsAgree(u, name, wi, 0, img, ctx, mem, words, 0);
    RegPathsAgree(u, name, wi, 0, val, ctx, mem, words, 0);
    SameBound(ctx, blobs, RegAddrs(u, img), RegAddrs(u, val));
    RegAddrsAreWords(u, val);
    RegCapturesSound(ctx, mem, blobs, RegAddrs(u, img));
    var leaves := ExecAll(ctx, mem, blobs);
    forall i | 0 <= i < |blobs|
      ensures Copying(RegAddrs(u, img)[i], leaves[i], mem)
    {
      BlobCopies(ctx, mem, blobs[i], RegAddrs(u, img)[i]);
    }
    PutsMirror(RegAddrs(u, img), leaves, mem);
  }

  /** What can be told of a value held in registers: all of it, and the texts that could be copied. */
  function RegisterGlimpse(d: Decoder, u: GoType, val: Bytes, mem: Memory): Rendered
  {
    Glimpse(d, AsHeld(u), Defined(val), 0, if Size(u) < 0 then 0 else Size(u), mem, Copies(WordsIn(val, TextOffsets(u, true)), mem), 0)
  }

  lemma ImageGlimpse(d: Decoder, u: GoType, name: string, wi: nat, val: Bytes, img: Bytes, words: Bytes,
                     ctx: KernelFetch.PtRegs, mem: Memory)
    requires Process(d, mem) && WellFormed(u) && 0 < AbiWordCount(u) && wi + AbiWordCount(u) <= |ABI_REGS|
    requires Size(u) <= LOW_PAGE && Size(u) <= |val| && 0 < Size(u) <= |img|
    requires WordsAre(ctx, mem, WordSpecs(u, name, wi), words, 0)
    requires Flattens(u, 0, val, words, 0) && Flattens(u, 0, img, words, 0)
    requires RegisterPlain(d, u, val, mem)
    ensures |RegAddrs(u, img)| == |RegBlobs(u, name, wi)|
    ensures var chunks := Puts(RegAddrs(u, img), ExecAll(ctx, mem, RegBlobs(u, name, wi)));
            RenderValue(d, u, img, 0, chunks, 0) == RegisterGlimpse(d, u, val, mem)
  {
    hide RenderValue, Glimpse, Mirrors, Sound, Flattens, WordsAre, WordSpecs, RegisterPlain, Copies, WordsIn, TextOffsets, Puts, Agrees,
         WellFormed, Process;
    RegisterCopies(u, name, wi, val, img, words, ctx, mem);
    assert FieldMem(img, 0) == img && Drop(Defined(val), 0) == Defined(val);
    BothFlatten(u, 0, img, val, words, 0);
    var chunks := Puts(RegAddrs(u, img), ExecAll(ctx, mem, RegBlobs(u, name, wi)));
    HeldGlimpse(d, u, img, Size(u), val, chunks, Copies(WordsIn(val, TextOffsets(u, true)), mem), mem);
  }

  /** A value held in registers, of every kind but a pointer and an interface: exactly what can be
   *  told of it, unless the itab of an interface in it could not be read. */
  lemma RegisterShownExactly(d: Decoder, v: Variable, wi: nat, val: Bytes, ctx: KernelFetch.PtRegs, mem: Memory,
                             all: seq<LeafData>, extra: nat, user: RecipeTable)
    requires Process(d, mem) && Covered(d.env, v.typ) && VariableHeld(v.typ, val, wi, ctx, mem) && TopPlain(d, v.typ, val, mem)
    requires wi + AbiWordCount(v.typ) <= |ABI_REGS| && !Underlying(v.typ).Ptr? && !Underlying(v.typ).Iface?
    ensures var u := Underlying(v.typ);
            var words := ExecAll(ctx, mem, WordSpecs(u, v.name, wi));
            var captures := ExecAll(ctx, mem, RegBlobs(u, v.name, wi));
            RenderLeaves(d, PlannedValue(d.env, v.typ, v.name), words, captures, all, extra, user)
            == Shown(if exists w <- words :: w.readError then Unavailable else RegisterGlimpse(d, u, val, mem), extra)
  {
    hide WordSpecs, RegBlobs, RenderValue, RegisterGlimpse, ConsumeReg, ScatteredImage, Exec, InRegisters, RegisterPlain;
    UnderlyingFacts(v.typ);
    var u := Underlying(v.typ);
    var words := ExecAll(ctx, mem, WordSpecs(u, v.name, wi));
    var captures := ExecAll(ctx, mem, RegBlobs(u, v.name, wi));
    if forall w <- words :: !w.readError {
      HeaderFaithful(u, v.name, wi, val, ctx, mem, words);
      PositiveSize(u);
      if u.Struct? {
        StructShown(d, v.typ, u, v.name, wi, val, ctx, mem, words, captures);
      } else {
        HeadShown(d, v.typ, u, v.name, wi, val, ctx, mem, words, captures);
      }
    }
  }

  lemma StructShown(d: Decoder, t: GoType, u: GoType, name: string, wi: nat, val: Bytes,
                    ctx: KernelFetch.PtRegs, mem: Memory, words: seq<LeafData>, captures: seq<LeafData>)
    requires Process(d, mem) && u == Underlying(t) && u.Struct?
    requires Fetched(u, name, wi, val, ctx, mem, ConcatLeaves(words))
    requires RegisterPlain(d, u, val, mem)
    requires captures == ExecAll(ctx, mem, RegBlobs(u, name, wi))
    ensures var img := ScatteredImage(t, ConcatLeaves(words));
            RenderValue(d, t, img, 0, ConsumeReg(t, img, captures).chunks, 0) == RegisterGlimpse(d, u, val, mem)
  {
    hide RegisterGlimpse, RenderValue;
    var header := ConcatLeaves(words);
    var img := ScatteredImage(u, header);
    ScatterUndoesFlattening(u, 0, header, 0, Zeros(Size(u)));
    RegBlobsCount(u, name, wi);
    ImageGlimpse(d, u, name, wi, val, img, header, ctx, mem);
    ConsumeRegBinds(u, img, captures);
    NamesAreTransparent(d, t, img, ConsumeReg(u, img, captures).chunks, header, captures);
  }

  lemma HeadShown(d: Decoder, t: GoType, u: GoType, name: string, wi: nat, val: Bytes,
                  ctx: KernelFetch.PtRegs, mem: Memory, words: seq<LeafData>, captures: seq<LeafData>)
    requires Process(d, mem) && u == Underlying(t) && !u.Struct? && !u.Ptr? && !u.Iface?
    requires Fetched(u, name, wi, val, ctx, mem, ConcatLeaves(words))
    requires RegisterPlain(d, u, val, mem)
    requires captures == ExecAll(ctx, mem, RegBlobs(u, name, wi))
    ensures var header := ConcatLeaves(words);
            RenderValue(d, t, header, 0, HeadChunks(u, header, captures), 0) == RegisterGlimpse(d, u, val, mem)
  {
    hide RegisterGlimpse, RenderValue;
    var header := ConcatLeaves(words);
    ImageGlimpse(d, u, name, wi, val, header, header, ctx, mem);
    RegBlobsCount(u, name, wi);
    ConsumeRegBinds(u, header, captures);
    assert HeadChunks(u, header, captures) == Puts(RegAddrs(u, header), captures);
    NamesAreTransparent(d, t, header, HeadChunks(u, header, captures), header, captures);
  }

  // ---- pointers ----

  lemma PathCopies(ctx: KernelFetch.PtRegs, mem: Memory, s: ArgSpec, bound: nat)
    requires s.LocSpec? && SameAddress(mem, LittleEndian(ctx(SpecReg(s))), s, bound)
    requires LittleEndian(ctx(SpecReg(s))) != 0 && (bound == 0 || Extent(s) == COPY)
    ensures Copying(bound, Exec(ctx, mem, s), mem)
  {
    hide Readable;
  }

  /** The snapshot of an object: a copy for each word within its first 64 bytes that leads to one. */
  lemma ObjectCopies(t: GoType, name: string, reg: string, ctx: KernelFetch.PtRegs, mem: Memory, obj: Bytes)
    requires NoItabs(t) && WellFormed(t) && |obj| == 64 && Holds(mem, LittleEndian(ctx(reg)), obj) && LittleEndian(ctx(reg)) != 0
    ensures var specs := MemSpecs(t, name, MemLoc(reg, [], true));
            && |specs| == |MemAddrs(t, obj)|
            && var chunks := Puts(MemAddrs(t, obj), ExecAll(ctx, mem, specs));
               Sound(chunks, mem) && Mirrors(chunks, Copies(WordsIn(obj, TextOffsets(t, true)), mem))
  {
    hide Exec, Holds, Copies, WordsIn, TextOffsets, Mirrors, Sound, Puts, WellFormed, NoItabs, SameAddress, Extent, MemAddrs, MemSpecs;
    var loc := MemLoc(reg, [], true);
    var specs, base, addrs := MemSpecs(t, name, loc), LittleEndian(ctx(reg)), MemAddrs(t, obj);
    ObjectCapturesSound(t, name, reg, ctx, mem, obj);
    WordBound(ctx(reg));
    assert Reaches(mem, base, loc.steps, base);
    MemPathsAgree(t, name, loc, mem, base, base, obj);
    MemSpecsReg(t, name, loc);
    WholeLeaves(t, name, loc, obj);
    var leaves := ExecAll(ctx, mem, specs);
    forall i | 0 <= i < |specs|
      ensures Copying(addrs[i], leaves[i], mem)
    {
      assert SameAddress(mem, base, specs[i], addrs[i]) && SpecReg(specs[i]) == reg;
      PathCopies(ctx, mem, specs[i], addrs[i]);
    }
    PutsMirror(addrs, leaves, mem);
    MemAddrsAreWords(t, obj, mem);
  }

  /** What can be told of an object whose first 64 bytes were copied. */
  function ObjectGlimpse(d: Decoder, id: TypeId, p: nat, mem: Memory): Rendered
    requires Readable(mem, p, COPY)
  {
    var own := ReadUser(mem, p, COPY).value;
    Glimpse(d, d.env(id), ObjectImage(d, id, p, mem), p, COPY, mem, [p] + Copies(WordsIn(own, TextOffsets(d.env(id), true)), mem), 0)
  }

  /** The object behind a pointer. */
  lemma ObjectShown(d: Decoder, id: TypeId, name: string, reg: string, ctx: KernelFetch.PtRegs, mem: Memory)
    requires Process(d, mem) && NoItabs(d.env(id)) && LittleEndian(ctx(reg)) != 0
    requires PlainReached(d, d.env(id), ObjectImage(d, id, LittleEndian(ctx(reg)), mem), mem, 0)
    ensures var loc := MemLoc(reg, [], true);
            var pointee, p := d.env(id), LittleEndian(ctx(reg));
            var obj := Exec(ctx, mem, BlobAt(name + ".obj", loc));
            var captures := ExecAll(ctx, mem, MemSpecs(pointee, name, loc));
            var chunks := Put(p, obj) + ConsumeMem(pointee, obj.data, captures).chunks;
            && !obj.isNil && obj.readError == !Readable(mem, p, COPY)
            && (Readable(mem, p, COPY) ==> RenderValue(d, pointee, obj.data, p, chunks, 0) == ObjectGlimpse(d, id, p, mem))
  {
    hide Exec, Copies, WordsIn, TextOffsets, Mirrors, Sound, Puts, MemAddrs, MemSpecs, RenderValue, Glimpse, PlainReached, Agrees, Readable, Live,
         ConsumeMem, ReadUser;
    var loc := MemLoc(reg, [], true);
    var pointee, p := d.env(id), LittleEndian(ctx(reg));
    var blob := BlobAt(name + ".obj", loc);
    var obj := Exec(ctx, mem, blob);
    WordBound(ctx(reg));
    BlobLeaf(ctx, mem, name + ".obj", reg, true);
    if Readable(mem, p, COPY) {
      ObjectCopied(ctx, mem, name + ".obj", reg);
      assert Put(p, obj) == [Chunk(p, obj.data)];
      assert WellFormed(pointee);
      ObjectCopies(pointee, name, reg, ctx, mem, obj.data);
      var captures := ExecAll(ctx, mem, MemSpecs(pointee, name, loc));
      ConsumeMemBinds(pointee, obj.data, captures);
      WellFormedSize(pointee);
      ObjectAgreesLive(pointee, obj.data, p, mem);
      WithObject(p, obj.data, ConsumeMem(pointee, obj.data, captures).chunks, Copies(WordsIn(obj.data, TextOffsets(pointee, true)), mem), mem);
      RenderIsGlimpse(d, pointee, obj.data, COPY, p, Live(mem, p, Size(pointee)), Put(p, obj) + ConsumeMem(pointee, obj.data, captures).chunks,
                      [p] + Copies(WordsIn(obj.data, TextOffsets(pointee, true)), mem), mem, 0);
    }
  }

  lemma ObjectCopied(ctx: KernelFetch.PtRegs, mem: Memory, name: string, reg: string)
    requires LittleEndian(ctx(reg)) != 0 && Readable(mem, LittleEndian(ctx(reg)), COPY)
    ensures var p, obj := LittleEndian(ctx(reg)), Exec(ctx, mem, BlobAt(name, MemLoc(reg, [], true)));
            && !obj.isNil && !obj.readError && |obj.data| == COPY
            && ReadUser(mem, p, COPY) == Some(obj.data) && Holds(mem, p, obj.data)
  {
    var p := LittleEndian(ctx(reg));
    WordBound(ctx(reg));
    var steps := KernelFetch.Int16Steps([Step(0, false)]);
    assert steps[1..] == [] && steps[0] == Step(0, false);
    assert KernelFetch.Walk(mem, p, steps) == KernelFetch.Walk(mem, p % ADDRESSES, []);
    var own := ReadUser(mem, p, COPY).value;
    assert own + Zeros(0) == own;
  }

  lemma ObjectAgreesLive(t: GoType, data: Bytes, p: nat, mem: Memory)
    requires WellFormed(t) && Holds(mem, p, data) && |data| == COPY && 0 <= Size(t)
    ensures Agrees(t, data, Live(mem, p, Size(t))) && Located(p, Size(t), Live(mem, p, Size(t)), mem)
  {
    hide Agrees, WellFormed;
    AgreesWhole(t, data, Live(mem, p, Size(t)));
  }

  lemma WithObject(p: nat, own: Bytes, chunks: seq<Chunk>, copies: seq<nat>, mem: Memory)
    requires Holds(mem, p, own) && |own| == COPY && Sound(chunks, mem) && Mirrors(chunks, copies)
    ensures Sound([Chunk(p, own)] + chunks, mem) && Mirrors([Chunk(p, own)] + chunks, [p] + copies)
  {
    assert SoundChunk(Chunk(p, own), mem);
  }

  /** A pointer: nil, an address, or exactly what can be told of the object behind it. */
  function PointerGlimpseOf(d: Decoder, id: TypeId, p: nat, mem: Memory): Rendered
  {
    if p == 0 then Nil
    else if !IsCapturedStruct(d.env(id)) then Address(p)
    else if !Readable(mem, p, COPY) then Unavailable
    else Ref(ObjectGlimpse(d, id, p, mem))
  }

  lemma PointerShownExactly(d: Decoder, v: Variable, wi: nat, val: Bytes, ctx: KernelFetch.PtRegs, mem: Memory,
                            all: seq<LeafData>, extra: nat, user: RecipeTable)
    requires Process(d, mem) && Covered(d.env, v.typ) && VariableHeld(v.typ, val, wi, ctx, mem) && TopPlain(d, v.typ, val, mem)
    requires wi < |ABI_REGS| && Underlying(v.typ).Ptr? && Quiet(d.env, v.typ, wi, ctx, mem, user)
    ensures var value := PlannedValue(d.env, v.typ, v.name);
            var leaves := ExecAll(ctx, mem, ValueSpecs(d.env, v.typ, v.name, wi));
            && |leaves| == value.LeafCount() && value.wordCount == 1
            && RenderLeaves(d, value, leaves[..1], leaves[1..], all, extra, user)
               == Shown(PointerGlimpseOf(d, Underlying(v.typ).target, ReadUint(val), mem), extra)
  {
    hide RenderValue, Exec, ObjectGlimpse, Readable, ValueSpecs, InRegisters, ConsumeMem, ApplyNested, PlainReached, ReadUser;
    UnderlyingFacts(v.typ);
    ValueSpecsCount(d.env, v.typ, v.name, wi);
    var id := Underlying(v.typ).target;
    var value := PlannedValue(d.env, v.typ, v.name);
    var leaves := ExecAll(ctx, mem, ValueSpecs(d.env, v.typ, v.name, wi));
    PointerFirst(d.env, v, wi, val, ctx, mem);
    PointerWord(d, id, v.typ, v.name, wi, val, ctx, mem);
    PointerLeaves(d, id, value, leaves[..1], leaves[1..], all, extra, user);
    if IsCapturedStruct(d.env(id)) {
      CapturedShown(d, v, id, wi, val, ctx, mem, all, extra, user);
    }
  }

  lemma PointerFirst(env: TypeEnv, v: Variable, wi: nat, val: Bytes, ctx: KernelFetch.PtRegs, mem: Memory)
    requires Underlying(v.typ).Ptr? && VariableHeld(v.typ, val, wi, ctx, mem)
    ensures RegisterHolds(ctx, wi, val, 0, 8) && |ValueSpecs(env, v.typ, v.name, wi)| > 0
    ensures !IsCapturedStruct(env(Underlying(v.typ).target)) ==> |ValueSpecs(env, v.typ, v.name, wi)| == 1
  {
  }

  lemma CapturedShown(d: Decoder, v: Variable, id: TypeId, wi: nat, val: Bytes, ctx: KernelFetch.PtRegs, mem: Memory,
                      all: seq<LeafData>, extra: nat, user: RecipeTable)
    requires Process(d, mem) && Underlying(v.typ) == Ptr(id) && NoItabs(d.env(id)) && IsCapturedStruct(d.env(id))
    requires ReadUint(val) == LittleEndian(ctx(Reg(wi))) && TopPlain(d, v.typ, val, mem) && Quiet(d.env, v.typ, wi, ctx, mem, user)
    ensures var captures := ExecAll(ctx, mem, ValueSpecs(d.env, v.typ, v.name, wi))[1..];
            && |captures| > 0 && captures[0].isNil == (ReadUint(val) == 0)
            && (ReadUint(val) != 0 ==>
                  RenderPointer(d, id, ReadUint(val), captures, all, extra, user) == Shown(PointerGlimpseOf(d, id, ReadUint(val), mem), extra))
  {
    hide MemSpecs, RenderValue, ConsumeMem, ApplyNested, Exec, ObjectImage, ExecAll, PlainReached, RegisterPlain, Size, ObjectGlimpse, Readable,
         ReadUser;
    var loc := MemLoc(Reg(wi), [], true);
    var word, blob := [WordSpec(v.name, 8, Reg(wi))], [BlobAt(v.name + ".obj", loc)];
    var specs := MemSpecs(d.env(id), v.name, loc);
    assert ValueSpecs(d.env, v.typ, v.name, wi) == word + (blob + specs);
    ExecSplit(ctx, mem, word, blob + specs);
    ExecSplit(ctx, mem, blob, specs);
    BlobLeaf(ctx, mem, v.name + ".obj", Reg(wi), true);
    if ReadUint(val) != 0 {
      ObjectShown(d, id, v.name, Reg(wi), ctx, mem);
    }
    assert Exec(ctx, mem, blob[0]) == Exec(ctx, mem, BlobAt("", loc)) by { BlobNameless(ctx, mem, v.name + ".obj", loc); }
    NoRecipesNested(user, d.env(id), Exec(ctx, mem, blob[0]).data, all);
  }
}
