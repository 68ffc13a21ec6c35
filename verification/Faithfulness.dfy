/** Auto-fetch is faithful: what is shown of a planned variable is true of the traced process. */
module Faithfulness {
  import opened Wrappers
  import opened Words
  import opened GoTypes
  import opened FetchRules
  import opened FetchPlan
  import opened TargetMemory
  import KernelFetch
  import opened Scatter
  import opened Snapshot
  import opened Render
  import opened LiveView
  import opened TypeRecipe
  import opened AutoFetch

  // ---- a value in registers ----

  /** The registers of Go's ABI, from word `wi` on, hold the value at `base` of `val`. A non-empty
   *  interface counts with its concrete type in place of its itab, when that can be read. */
  predicate InRegisters(t: GoType, base: nat, val: Bytes, wi: nat, ctx: KernelFetch.PtRegs, mem: Memory)
    decreases t
  {
    match t
    case Named(b) => InRegisters(b, base, val, wi, ctx, mem)
    case Scalar(_, n) => RegisterHolds(ctx, wi, val, base, n)
    case Ptr(_) => RegisterHolds(ctx, wi, val, base, 8)
    case Str => RegisterHolds(ctx, wi, val, base, 8) && RegisterHolds(ctx, wi + 1, val, base + 8, 8)
    case Slice(_, _) =>
      && RegisterHolds(ctx, wi, val, base, 8)
      && RegisterHolds(ctx, wi + 1, val, base + 8, 8)
      && RegisterHolds(ctx, wi + 2, val, base + 16, 8)
    case Iface(nonEmpty) =>
      && RegisterHolds(ctx, wi + 1, val, base + 8, 8)
      && (if nonEmpty then base + 8 <= |val| && ItabHolds(ctx(Reg(wi)), val[base..base + 8], mem)
          else RegisterHolds(ctx, wi, val, base, 8))
    case Struct(_, fields, _) => FieldsInRegisters(fields, base, val, wi, ctx, mem)
    case Opaque(_) => false
  }

  predicate FieldsInRegisters(fields: seq<Field>, base: nat, val: Bytes, wi: nat, ctx: KernelFetch.PtRegs, mem: Memory)
    decreases fields
  {
    if fields == [] then true
    else
      && 0 <= fields[0].offset
      && InRegisters(fields[0].typ, base + fields[0].offset, val, wi, ctx, mem)
      && FieldsInRegisters(fields[1..], base, val, wi + AbiWordCount(fields[0].typ), ctx, mem)
  }

  predicate RegisterHolds(ctx: KernelFetch.PtRegs, wi: nat, val: Bytes, base: nat, n: nat)
  {
    n <= 8 && base + n <= |val| && ctx(Reg(wi))[..n] == val[base..base + n]
  }

  predicate ItabHolds(itab: Word, typeWord: Bytes, mem: Memory)
  {
    var p := LittleEndian(itab);
    if p == 0 then typeWord == ZERO_WORD
    else ReadUser(mem, (p + 8) % ADDRESSES, 8).Some? ==> ReadUser(mem, (p + 8) % ADDRESSES, 8) == Some(typeWord)
  }

  // ---- the header the decoder assembles ----

  /** From `from` on, `words` are the first eight bytes of each leaf of the specs, all readable. */
  predicate WordsAre(ctx: KernelFetch.PtRegs, mem: Memory, specs: seq<ArgSpec>, words: Bytes, from: nat)
  {
    from + 8 * |specs| <= |words| && forall j | 0 <= j < |specs| :: WordIs(ctx, mem, specs[j], words, from + 8 * j)
  }

  predicate WordIs(ctx: KernelFetch.PtRegs, mem: Memory, s: ArgSpec, words: Bytes, at: nat)
  {
    && at + 8 <= |words|
    && words[at..at + 8] == Exec(ctx, mem, s).data[..8]
    && !Exec(ctx, mem, s).readError
  }

  lemma {:induction false} HeaderWords(ctx: KernelFetch.PtRegs, mem: Memory, specs: seq<ArgSpec>, leaves: seq<LeafData>)
    requires leaves == ExecAll(ctx, mem, specs) && forall l <- leaves :: !l.readError
    ensures |ConcatLeaves(leaves)| == 8 * |specs|
    ensures WordsAre(ctx, mem, specs, ConcatLeaves(leaves), 0)
  {
    hide Exec, WordIs;
    if specs != [] {
      var words, rest := ConcatLeaves(leaves), ConcatLeaves(leaves[1..]);
      assert leaves[0] in leaves && leaves[0] == Exec(ctx, mem, specs[0]);
      assert leaves[1..] == ExecAll(ctx, mem, specs[1..]);
      HeaderWords(ctx, mem, specs[1..], leaves[1..]);
      assert words == leaves[0].data[..8] + rest;
      FirstWord(ctx, mem, specs[0], leaves[0].data[..8], rest);
      forall j | 0 <= j < |specs|
        ensures WordIs(ctx, mem, specs[j], words, 8 * j)
      {
        if j > 0 {
          assert WordIs(ctx, mem, specs[1..][j - 1], rest, 8 * (j - 1));
          LaterWord(ctx, mem, specs[j], leaves[0].data[..8], rest, 8 * (j - 1));
        }
      }
    }
  }

  lemma FirstWord(ctx: KernelFetch.PtRegs, mem: Memory, s: ArgSpec, w: Bytes, rest: Bytes)
    requires w == Exec(ctx, mem, s).data[..8] && !Exec(ctx, mem, s).readError
    ensures WordIs(ctx, mem, s, w + rest, 0)
  {
    hide Exec;
  }

  lemma LaterWord(ctx: KernelFetch.PtRegs, mem: Memory, s: ArgSpec, w: Bytes, rest: Bytes, at: nat)
    requires |w| == 8 && WordIs(ctx, mem, s, rest, at)
    ensures WordIs(ctx, mem, s, w + rest, at + 8)
  {
    hide Exec;
    assert (w + rest)[at + 8..at + 16] == rest[at..at + 8];
  }

  lemma WordsAreSplit(ctx: KernelFetch.PtRegs, mem: Memory, a: seq<ArgSpec>, b: seq<ArgSpec>, words: Bytes, from: nat)
    requires WordsAre(ctx, mem, a + b, words, from)
    ensures WordsAre(ctx, mem, a, words, from) && WordsAre(ctx, mem, b, words, from + 8 * |a|)
  {
    forall j | 0 <= j < |a|
      ensures WordIs(ctx, mem, a[j], words, from + 8 * j)
    {
      assert (a + b)[j] == a[j];
    }
    forall j | 0 <= j < |b|
      ensures WordIs(ctx, mem, b[j], words, from + 8 * |a| + 8 * j)
    {
      assert (a + b)[|a| + j] == b[j];
      assert from + 8 * (|a| + j) == from + 8 * |a| + 8 * j;
    }
  }

  /** The word read from a plain register. */
  lemma RegisterWord(ctx: KernelFetch.PtRegs, mem: Memory, s: ArgSpec, words: Bytes, at: nat)
    requires s.WordSpec? && WordIs(ctx, mem, s, words, at)
    ensures words[at..at + 8] == ctx(s.reg)
  {
    assert Exec(ctx, mem, s).data[..8] == ctx(s.reg);
  }

  lemma RegisterBytes(ctx: KernelFetch.PtRegs, mem: Memory, s: ArgSpec, words: Bytes, at: nat,
                      wi: nat, val: Bytes, base: nat, n: nat)
    requires s.WordSpec? && s.reg == Reg(wi) && WordIs(ctx, mem, s, words, at)
    requires RegisterHolds(ctx, wi, val, base, n)
    ensures SameBytes(val, base, words, at, n)
  {
    RegisterWord(ctx, mem, s, words, at);
    assert words[at..at + n] == words[at..at + 8][..n];
  }

  /** The type word of a non-empty interface, read behind its itab. */
  lemma ItabBytes(ctx: KernelFetch.PtRegs, mem: Memory, s: ArgSpec, words: Bytes, at: nat, val: Bytes, base: nat)
    requires s.ItabSpec? && WordIs(ctx, mem, s, words, at) && base + 8 <= |val|
    requires ItabHolds(ctx(s.reg), val[base..base + 8], mem)
    ensures SameBytes(val, base, words, at, 8)
  {
    var p := LittleEndian(ctx(s.reg));
    if p == 0 {
      assert Exec(ctx, mem, s).data[..8] == ZERO_WORD;
    } else {
      assert [Step(8, false)][1..] == [];
      var r := ReadUser(mem, (p + 8) % ADDRESSES, 8);
      assert r.Some?;
      assert Exec(ctx, mem, s).data[..8] == r.value;
    }
  }

  lemma SameBytesJoin(img: Bytes, base: nat, words: Bytes, from: nat, n: nat, m: nat)
    requires SameBytes(img, base, words, from, n) && SameBytes(img, base + n, words, from + n, m)
    ensures SameBytes(img, base, words, from, n + m)
  {
    assert img[base..base + n + m] == img[base..base + n] + img[base + n..base + n + m];
    assert words[from..from + n + m] == words[from..from + n] + words[from + n..from + n + m];
  }

  lemma SameBytesPart(img: Bytes, base: nat, words: Bytes, from: nat, n: nat, k: nat, m: nat)
    requires SameBytes(img, base, words, from, n) && k + m <= n
    ensures SameBytes(img, base + k, words, from + k, m)
  {
    var a, b := img[base + k..base + k + m], words[from + k..from + k + m];
    forall i | 0 <= i < m
      ensures a[i] == b[i]
    {
      assert img[base..base + n][k + i] == words[from..from + n][k + i];
    }
    assert a == b;
  }

  /** The fetched words flatten the value the registers hold. */
  lemma {:induction false} WordsFlatten(t: GoType, name: string, base: nat, val: Bytes, wi: nat,
                                        ctx: KernelFetch.PtRegs, mem: Memory, words: Bytes, from: nat)
    requires WellFormed(t) && AbiWordCount(t) > 0 && wi + AbiWordCount(t) <= |ABI_REGS|
    requires InRegisters(t, base, val, wi, ctx, mem) && base + Size(t) <= |val|
    requires WordsAre(ctx, mem, WordSpecs(t, name, wi), words, from)
    ensures Flattens(t, base, val, words, from)
    decreases t
  {
    var specs := WordSpecs(t, name, wi);
    match t
    case Named(b) => WordsFlatten(b, name, base, val, wi, ctx, mem, words, from);
    case Scalar(_, n) =>
      assert WordIs(ctx, mem, specs[0], words, from + 8 * 0);
      RegisterBytes(ctx, mem, specs[0], words, from, wi, val, base, n);
    case Ptr(_) =>
      assert WordIs(ctx, mem, specs[0], words, from + 8 * 0);
      RegisterBytes(ctx, mem, specs[0], words, from, wi, val, base, 8);
    case Str =>
      TwoWords(ctx, mem, specs, words, from, wi, val, base);
    case Slice(_, _) =>
      WordsAreSplit(ctx, mem, specs[..2], specs[2..], words, from);
      assert specs == specs[..2] + specs[2..];
      TwoWords(ctx, mem, specs[..2], words, from, wi, val, base);
      assert WordIs(ctx, mem, specs[2..][0], words, from + 16 + 8 * 0);
      RegisterBytes(ctx, mem, specs[2], words, from + 16, wi + 2, val, base + 16, 8);
      SameBytesJoin(val, base, words, from, 16, 8);
    case Iface(nonEmpty) =>
      if nonEmpty {
        assert WordIs(ctx, mem, specs[0], words, from + 8 * 0) && WordIs(ctx, mem, specs[1], words, from + 8 * 1);
        ItabBytes(ctx, mem, specs[0], words, from, val, base);
        RegisterBytes(ctx, mem, specs[1], words, from + 8, wi + 1, val, base + 8, 8);
        SameBytesJoin(val, base, words, from, 8, 8);
      } else {
        TwoWords(ctx, mem, specs, words, from, wi, val, base);
      }
    case Struct(_, fields, size) =>
      SupportedFields(fields);
      FieldWordsFlatten(fields, size, name, base, val, wi, ctx, mem, words, from);
  }

  lemma TwoWords(ctx: KernelFetch.PtRegs, mem: Memory, specs: seq<ArgSpec>, words: Bytes, from: nat,
                 wi: nat, val: Bytes, base: nat)
    requires WordsAre(ctx, mem, specs, words, from)
    requires |specs| == 2 && specs[0].WordSpec? && specs[1].WordSpec?
    requires specs[0].reg == Reg(wi) && specs[1].reg == Reg(wi + 1)
    requires RegisterHolds(ctx, wi, val, base, 8) && RegisterHolds(ctx, wi + 1, val, base + 8, 8)
    ensures SameBytes(val, base, words, from, 16)
  {
    assert WordIs(ctx, mem, specs[0], words, from + 8 * 0) && WordIs(ctx, mem, specs[1], words, from + 8 * 1);
    RegisterBytes(ctx, mem, specs[0], words, from, wi, val, base, 8);
    RegisterBytes(ctx, mem, specs[1], words, from + 8, wi + 1, val, base + 8, 8);
    SameBytesJoin(val, base, words, from, 8, 8);
  }

  /** The words of a struct are its first field's, then the other fields'. */
  lemma FieldSplit(fields: seq<Field>, name: string, wi: nat, ctx: KernelFetch.PtRegs, mem: Memory, words: Bytes, from: nat)
    requires fields != [] && AllSupported(fields)
    requires wi + FieldWordCount(fields) <= |ABI_REGS|
    requires WordsAre(ctx, mem, FieldWordSpecs(fields, name, wi), words, from)
    ensures var n, fieldName := AbiWordCount(fields[0].typ), name + "." + fields[0].name;
            && 0 < n && wi + n + FieldWordCount(fields[1..]) <= |ABI_REGS|
            && |WordSpecs(fields[0].typ, fieldName, wi)| == n
            && WordsAre(ctx, mem, WordSpecs(fields[0].typ, fieldName, wi), words, from)
            && WordsAre(ctx, mem, FieldWordSpecs(fields[1..], name, wi + n), words, from + 8 * n)
  {
    hide WordSpecs, AbiWordCount, WordsAre;
    SupportedFields(fields);
    var n, fieldName := AbiWordCount(fields[0].typ), name + "." + fields[0].name;
    assert fields[0] in fields;
    WordSpecsCount(fields[0].typ, fieldName, wi);
    WordsAreSplit(ctx, mem, WordSpecs(fields[0].typ, fieldName, wi), FieldWordSpecs(fields[1..], name, wi + n), words, from);
  }

  lemma {:induction false} FieldWordsFlatten(fields: seq<Field>, size: int, name: string, base: nat, val: Bytes, wi: nat,
                                             ctx: KernelFetch.PtRegs, mem: Memory, words: Bytes, from: nat)
    requires AllSupported(fields) && forall f <- fields :: FieldFits(f, size) && WellFormed(f.typ)
    requires wi + FieldWordCount(fields) <= |ABI_REGS|
    requires FieldsInRegisters(fields, base, val, wi, ctx, mem) && base + size <= |val|
    requires WordsAre(ctx, mem, FieldWordSpecs(fields, name, wi), words, from)
    ensures FieldsFlatten(fields, base, val, words, from)
    decreases fields
  {
    hide WordSpecs, AbiWordCount, Flattens, InRegisters, WordsAre, WellFormed;
    if fields != [] {
      var f, n := fields[0], AbiWordCount(fields[0].typ);
      var fieldName := name + "." + f.name;
      assert f in fields && FieldFits(f, size) && WellFormed(f.typ);
      FieldSplit(fields, name, wi, ctx, mem, words, from);
      WordsFlatten(f.typ, fieldName, base + f.offset, val, wi, ctx, mem, words, from);
      FieldWordsFlatten(fields[1..], size, name, base, val, wi + n, ctx, mem, words, from + 8 * n);
    }
  }

  /** Two images flattened by the same words agree wherever the type puts something. */
  lemma {:induction false} BothFlatten(t: GoType, base: nat, a: Bytes, b: Bytes, words: Bytes, from: nat)
    requires WellFormed(t) && AbiWordCount(t) > 0
    requires Flattens(t, base, a, words, from) && Flattens(t, base, b, words, from)
    ensures Agrees(t, FieldMem(a, base), Drop(Defined(b), base))
    decreases t
  {
    match t
    case Named(u) => BothFlatten(u, base, a, b, words, from);
    case Struct(_, fields, size) =>
      SupportedFields(fields);
      FieldsBothFlatten(fields, size, base, a, b, words, from);
      forall f | f in fields
        ensures Agrees(f.typ, FieldMem(FieldMem(a, base), f.offset), Drop(Drop(Defined(b), base), f.offset))
      {
        assert FieldFits(f, size);
        NestedField(a, base, f.offset);
        NestedDrop(Defined(b), base, f.offset);
      }
    case _ => SameBytesAgree(base, a, b, words, from, Size(t));
  }

  lemma SameBytesAgree(base: nat, a: Bytes, b: Bytes, words: Bytes, from: nat, n: nat)
    requires SameBytes(a, base, words, from, n) && SameBytes(b, base, words, from, n)
    ensures AgreesUpTo(FieldMem(a, base), Drop(Defined(b), base), n)
  {
    forall i | 0 <= i < n && i < |FieldMem(a, base)|
      ensures i < |Drop(Defined(b), base)| && Drop(Defined(b), base)[i] == Some(FieldMem(a, base)[i])
    {
      assert a[base..base + n][i] == words[from..from + n][i] == b[base..base + n][i];
    }
  }

  lemma NestedField(a: Bytes, base: nat, offset: nat)
    ensures FieldMem(FieldMem(a, base), offset) == FieldMem(a, base + offset)
  {
  }

  lemma NestedDrop(img: Image, base: nat, offset: nat)
    requires base + offset <= |img|
    ensures Drop(Drop(img, base), offset) == Drop(img, base + offset)
  {
  }

  lemma {:induction false} FieldsBothFlatten(fields: seq<Field>, size: int, base: nat, a: Bytes, b: Bytes, words: Bytes, from: nat)
    requires AllSupported(fields) && forall f <- fields :: FieldFits(f, size) && WellFormed(f.typ)
    requires FieldsFlatten(fields, base, a, words, from) && FieldsFlatten(fields, base, b, words, from)
    ensures forall f <- fields ::
              base + f.offset <= |b| && Agrees(f.typ, FieldMem(a, base + f.offset), Drop(Defined(b), base + f.offset))
    decreases fields
  {
    hide Agrees, Flattens, AbiWordCount;
    if fields != [] {
      var f := fields[0];
      assert f in fields && FieldFits(f, size);
      BothFlatten(f.typ, base + f.offset, a, b, words, from);
      FlattensInside(f.typ, base + f.offset, b, words, from);
      FieldsBothFlatten(fields[1..], size, base, a, b, words, from + 8 * AbiWordCount(f.typ));
    }
  }

  lemma {:induction false} FlattensInside(t: GoType, base: nat, img: Bytes, words: Bytes, from: nat)
    requires WellFormed(t) && AbiWordCount(t) > 0 && Flattens(t, base, img, words, from)
    ensures base <= |img|
    decreases t
  {
    match t
    case Named(u) => FlattensInside(u, base, img, words, from);
    case Struct(_, fields, size) =>
      SupportedFields(fields);
      assert fields[0] in fields && FieldFits(fields[0], size);
      FlattensInside(fields[0].typ, base + fields[0].offset, img, words, from);
    case _ =>
  }

  // ---- captures of a value in registers ----

  /** Each blob is read at the pointer its register holds, and bound there. */
  predicate BoundAtRegisters(ctx: KernelFetch.PtRegs, blobs: seq<ArgSpec>, bound: seq<nat>)
  {
    |blobs| == |bound| && forall i | 0 <= i < |blobs| :: BoundAtRegister(ctx, blobs[i], bound[i])
  }

  predicate BoundAtRegister(ctx: KernelFetch.PtRegs, s: ArgSpec, bound: nat)
  {
    s.LocSpec? && s.loc.steps == [] && s.size == AUTO_STRING_SIZE && bound == LittleEndian(ctx(s.loc.reg))
  }

  lemma BoundAppend(ctx: KernelFetch.PtRegs, s1: seq<ArgSpec>, b1: seq<nat>, s2: seq<ArgSpec>, b2: seq<nat>)
    requires BoundAtRegisters(ctx, s1, b1) && BoundAtRegisters(ctx, s2, b2)
    ensures BoundAtRegisters(ctx, s1 + s2, b1 + b2)
  {
    forall i | 0 <= i < |s1| + |s2|
      ensures BoundAtRegister(ctx, (s1 + s2)[i], (b1 + b2)[i])
    {
      if i < |s1| {
        assert (s1 + s2)[i] == s1[i] && (b1 + b2)[i] == b1[i];
      } else {
        assert (s1 + s2)[i] == s2[i - |s1|] && (b1 + b2)[i] == b2[i - |s1|];
      }
    }
  }

  /** A word of the image is the word of the register it was fetched from. */
  lemma WordInImage(ctx: KernelFetch.PtRegs, mem: Memory, s: ArgSpec, img: Bytes, base: nat,
                    words: Bytes, from: nat, n: nat, k: nat)
    requires SameBytes(img, base, words, from, n) && k + 8 <= n
    requires s.WordSpec? && WordIs(ctx, mem, s, words, from + k)
    ensures |FieldMem(img, base)| >= k + 8 && ReadUint(FieldMem(img, base)[k..]) == LittleEndian(ctx(s.reg))
  {
    SameBytesPart(img, base, words, from, n, k, 8);
    RegisterWord(ctx, mem, s, words, from + k);
    assert FieldMem(img, base)[k..][..8] == img[base + k..base + k + 8];
  }

  lemma {:induction false} RegPathsAgree(t: GoType, name: string, wi: nat, base: nat, img: Bytes,
                                         ctx: KernelFetch.PtRegs, mem: Memory, words: Bytes, from: nat)
    requires WellFormed(t) && AbiWordCount(t) > 0 && wi + AbiWordCount(t) <= |ABI_REGS|
    requires Flattens(t, base, img, words, from)
    requires WordsAre(ctx, mem, WordSpecs(t, name, wi), words, from)
    ensures BoundAtRegisters(ctx, RegBlobs(t, name, wi), RegAddrs(t, FieldMem(img, base)))
    decreases t
  {
    var specs := WordSpecs(t, name, wi);
    match t
    case Named(b) => RegPathsAgree(b, name, wi, base, img, ctx, mem, words, from);
    case Str =>
      assert WordIs(ctx, mem, specs[0], words, from + 8 * 0);
      WordInImage(ctx, mem, specs[0], img, base, words, from, 16, 0);
      assert FieldMem(img, base)[0..] == FieldMem(img, base);
    case Slice(_, _) =>
      assert WordIs(ctx, mem, specs[0], words, from + 8 * 0);
      WordInImage(ctx, mem, specs[0], img, base, words, from, 24, 0);
      assert FieldMem(img, base)[0..] == FieldMem(img, base);
    case Iface(_) =>
      assert WordIs(ctx, mem, specs[1], words, from + 8 * 1);
      WordInImage(ctx, mem, specs[1], img, base, words, from, 16, 8);
    case Struct(_, fields, size) =>
      SupportedFields(fields);
      FieldRegPathsAgree(fields, size, name, wi, base, img, ctx, mem, words, from);
    case _ =>
  }

  lemma NoneBound(ctx: KernelFetch.PtRegs)
    ensures BoundAtRegisters(ctx, [], [])
  {
  }

  lemma {:induction false} FieldRegPathsAgree(fields: seq<Field>, size: int, name: string, wi: nat, base: nat, img: Bytes,
                                              ctx: KernelFetch.PtRegs, mem: Memory, words: Bytes, from: nat)
    requires AllSupported(fields) && forall f <- fields :: FieldFits(f, size) && WellFormed(f.typ)
    requires wi + FieldWordCount(fields) <= |ABI_REGS|
    requires FieldsFlatten(fields, base, img, words, from)
    requires WordsAre(ctx, mem, FieldWordSpecs(fields, name, wi), words, from)
    ensures BoundAtRegisters(ctx, FieldRegBlobs(fields, name, wi), FieldRegAddrs(fields, FieldMem(img, base)))
    decreases fields
  {
    hide WordSpecs, AbiWordCount, Flattens, RegBlobs, RegAddrs, WordsAre, WellFormed, BoundAtRegisters;
    NoneBound(ctx);
    if fields != [] {
      var f, n := fields[0], AbiWordCount(fields[0].typ);
      var fieldName := name + "." + f.name;
      assert f in fields && FieldFits(f, size) && WellFormed(f.typ);
      FieldSplit(fields, name, wi, ctx, mem, words, from);
      RegPathsAgree(f.typ, fieldName, wi, base + f.offset, img, ctx, mem, words, from);
      FieldRegPathsAgree(fields[1..], size, name, wi + n, base, img, ctx, mem, words, from + 8 * n);
      NestedField(img, base, f.offset);
      BoundAppend(ctx, RegBlobs(f.typ, fieldName, wi), RegAddrs(f.typ, FieldMem(img, base + f.offset)),
                  FieldRegBlobs(fields[1..], name, wi + n), FieldRegAddrs(fields[1..], FieldMem(img, base)));
    }
  }

  // ---- soundness of the snapshot ----

  /** Bound leaves that were fetched whole. */
  predicate FetchedTruly(mem: Memory, specs: seq<ArgSpec>, leaves: seq<LeafData>, bound: seq<nat>)
  {
    && |specs| == |leaves| == |bound|
    && forall i | 0 <= i < |specs| ::
         && BoundTruly(mem, specs[i], leaves[i], bound[i])
         && |leaves[i].data| == 64
         && (bound[i] == 0 || Extent(specs[i]) == 64)
  }

  lemma {:induction false} PutsSound(mem: Memory, specs: seq<ArgSpec>, leaves: seq<LeafData>, bound: seq<nat>)
    requires FetchedTruly(mem, specs, leaves, bound)
    ensures Sound(Puts(bound, leaves), mem)
  {
    if bound != [] {
      var first := Put(bound[0], leaves[0]);
      if first != [] {
        assert BoundTruly(mem, specs[0], leaves[0], bound[0]) && Take(leaves[0].data, 64) == leaves[0].data;
        assert SoundChunk(first[0], mem);
      }
      PutsSound(mem, specs[1..], leaves[1..], bound[1..]);
    }
  }

  lemma BlobBoundTruly(ctx: KernelFetch.PtRegs, mem: Memory, s: ArgSpec, bound: nat)
    requires BoundAtRegister(ctx, s, bound)
    ensures BoundTruly(mem, s, Exec(ctx, mem, s), bound) && Extent(s) == 64
  {
    var base := LittleEndian(ctx(s.loc.reg));
    WordBound(ctx(s.loc.reg));
    assert KernelFetch.Int16Steps([Step(0, false)]) == [Step(0, false)];
    assert [Step(0, false)][1..] == [];
    assert Reaches(mem, base, SpecSteps(s), bound);
    ExecHolds(ctx, mem, s, bound);
  }

  lemma RegCapturesSound(ctx: KernelFetch.PtRegs, mem: Memory, blobs: seq<ArgSpec>, bound: seq<nat>)
    requires BoundAtRegisters(ctx, blobs, bound)
    ensures Sound(Puts(bound, ExecAll(ctx, mem, blobs)), mem)
  {
    var leaves := ExecAll(ctx, mem, blobs);
    forall i | 0 <= i < |blobs|
      ensures BoundTruly(mem, blobs[i], leaves[i], bound[i]) && Extent(blobs[i]) == 64
    {
      BlobBoundTruly(ctx, mem, blobs[i], bound[i]);
    }
    PutsSound(mem, blobs, leaves, bound);
  }

  /** No interface with methods lies in the object itself. The leaf for such an interface's type
   *  word is eight bytes in a 64-byte slot, so the snapshot would hold padding as memory. */
  predicate NoItabs(t: GoType)
  {
    match t
    case Named(b) => NoItabs(b)
    case Iface(nonEmpty) => !nonEmpty
    case Struct(_, fields, _) => forall f <- fields :: NoItabs(f.typ)
    case _ => true
  }

  lemma {:induction false} WholeLeaves(t: GoType, name: string, loc: MemLoc, data: Bytes)
    requires NoItabs(t)
    ensures AllWhole(MemSpecs(t, name, loc), MemAddrs(t, data))
    decreases t
  {
    match t
    case Named(b) => WholeLeaves(b, name, loc, data);
    case Iface(_) =>
      assert MemSpecs(t, name, loc) == [LocSpec(name + ".data", loc.Add(8), 8), BlobAt(name + ".value", loc.Deref(8))];
      assert MemAddrs(t, data) == [0, SecondWord(data)];
    case Struct(_, fields, _) => FieldWholeLeaves(fields, name, loc, data);
    case _ =>
  }

  predicate AllWhole(specs: seq<ArgSpec>, bound: seq<nat>)
  {
    |specs| == |bound| && forall i | 0 <= i < |specs| :: bound[i] == 0 || Extent(specs[i]) == 64
  }

  lemma {:induction false} FieldWholeLeaves(fields: seq<Field>, name: string, loc: MemLoc, data: Bytes)
    requires forall f <- fields :: NoItabs(f.typ)
    ensures AllWhole(FieldMemSpecs(fields, name, loc), FieldMemAddrs(fields, data))
    decreases fields
  {
    if fields != [] {
      var f := fields[0];
      var own := FieldMem(data, f.offset);
      WholeLeaves(f.typ, name + "." + f.name, loc.Add(f.offset), own);
      FieldWholeLeaves(fields[1..], name, loc, data);
      var s1, s2 := MemSpecs(f.typ, name + "." + f.name, loc.Add(f.offset)), FieldMemSpecs(fields[1..], name, loc);
      var b1, b2 := MemAddrs(f.typ, own), FieldMemAddrs(fields[1..], data);
      forall i | 0 <= i < |s1| + |s2|
        ensures (b1 + b2)[i] == 0 || Extent((s1 + s2)[i]) == 64
      {
        if i < |s1| {
          assert (s1 + s2)[i] == s1[i] && (b1 + b2)[i] == b1[i];
        } else {
          assert (s1 + s2)[i] == s2[i - |s1|] && (b1 + b2)[i] == b2[i - |s1|];
        }
      }
    }
  }

  lemma ObjectCapturesSound(t: GoType, name: string, reg: string, ctx: KernelFetch.PtRegs, mem: Memory, obj: Bytes)
    requires NoItabs(t) && |obj| == 64 && Holds(mem, LittleEndian(ctx(reg)), obj)
    ensures var specs := MemSpecs(t, name, MemLoc(reg, [], true));
            |specs| == |MemAddrs(t, obj)| && Sound(Puts(MemAddrs(t, obj), ExecAll(ctx, mem, specs)), mem)
  {
    var specs := MemSpecs(t, name, MemLoc(reg, [], true));
    ObjectSnapshotSound(t, name, reg, ctx, mem, obj);
    WholeLeaves(t, name, MemLoc(reg, [], true), obj);
    PutsSound(mem, specs, ExecAll(ctx, mem, specs), MemAddrs(t, obj));
  }
}
