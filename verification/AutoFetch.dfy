/** Compile, execute, decode: what the three agree on.
 *
 *  The planner and the decoder walk a type independently, one emitting addressing paths for the
 *  kernel to follow, the other binding the leaves that come back to addresses it reads out of
 *  the captured bytes. This module proves that the two walks name the same addresses, and that
 *  what is shown of a planned value is therefore true of the process's memory.
 */
module AutoFetch {
  import opened Wrappers
  import opened Words
  import opened GoTypes
  import opened FetchRules
  import opened FetchPlan
  import opened TargetMemory
  import KernelFetch
  import Scatter
  import opened Snapshot
  import opened Render
  import opened LiveView
  import opened TypeRecipe

  // ---- executing one planned leaf ----

  function SpecSteps(s: ArgSpec): seq<Step>
  {
    match s
    case WordSpec(_, _, _) => []
    case ItabSpec(_, _) => [Step(8, false)]
    case LocSpec(_, loc, _) => if |loc.steps| == 0 then [Step(0, false)] else loc.steps
  }

  function SpecReg(s: ArgSpec): string
  {
    match s
    case WordSpec(_, _, reg) => reg
    case ItabSpec(_, reg) => reg
    case LocSpec(_, loc, _) => loc.reg
  }

  /** What the probe leaves in the slot of a planned leaf. */
  function Exec(ctx: KernelFetch.PtRegs, mem: Memory, s: ArgSpec): (leaf: LeafData)
    ensures |leaf.data| == 64
  {
    match s
    case WordSpec(_, _, reg) => KernelFetch.ArgData(ctx(reg) + Zeros(56), false, false)
    case ItabSpec(_, reg) => KernelFetch.FetchAt(mem, LittleEndian(ctx(reg)), [Step(8, false)], 8, true)
    case LocSpec(_, loc, size) =>
      KernelFetch.FetchAt(mem, LittleEndian(ctx(loc.reg)), KernelFetch.Int16Steps(SpecSteps(s)), size, loc.nilCheck)
  }

  function ExecAll(ctx: KernelFetch.PtRegs, mem: Memory, specs: seq<ArgSpec>): (leaves: seq<LeafData>)
    ensures |leaves| == |specs|
    ensures forall i | 0 <= i < |specs| :: leaves[i] == Exec(ctx, mem, specs[i])
  {
    seq(|specs|, i requires 0 <= i < |specs| => Exec(ctx, mem, specs[i]))
  }

  predicate ByteSized(s: ArgSpec)
  {
    s.LocSpec? ==> s.size < 256
  }

  /** Nothing that decides what is fetched differs (`markIfaceSlots` changes only flags). */
  predicate SameFetch(a: FetchArg, b: FetchArg)
  {
    a.rules == b.rules && a.nilCheck == b.nilCheck && a.size == b.size
  }

  /** Encoding loses nothing the planner put into a leaf's rule but offsets wider than 16 bits. */
  lemma EncodedLeaf(ctx: KernelFetch.PtRegs, mem: Memory, s: ArgSpec, arg: FetchArg, k: KernelFetch.KernelRule)
    requires ByteSized(s) && SameFetch(arg, ToFetchArg(s)) && KernelFetch.Encodes(k, arg)
    requires KernelFetch.ReadReg(ctx, k.reg) == ctx(SpecReg(s))
    ensures KernelFetch.FetchOne(ctx, mem, k) == Exec(ctx, mem, s)
  {
    match s
    case WordSpec(_, _, _) => EncodedWord(ctx, mem, s, arg, k);
    case _ =>
      EncodedSteps(s, arg, k);
      EncodedMemory(ctx, mem, s, arg, k);
  }

  lemma EncodedWord(ctx: KernelFetch.PtRegs, mem: Memory, s: ArgSpec, arg: FetchArg, k: KernelFetch.KernelRule)
    requires s.WordSpec? && SameFetch(arg, ToFetchArg(s)) && KernelFetch.Encodes(k, arg)
    requires KernelFetch.ReadReg(ctx, k.reg) == ctx(SpecReg(s))
    ensures KernelFetch.FetchOne(ctx, mem, k) == Exec(ctx, mem, s)
  {
    hide KernelFetch.ReadReg, KernelFetch.RegisterConstant, KernelFetch.FetchAt;
  }

  lemma EncodedMemory(ctx: KernelFetch.PtRegs, mem: Memory, s: ArgSpec, arg: FetchArg, k: KernelFetch.KernelRule)
    requires !s.WordSpec? && ByteSized(s) && SameFetch(arg, ToFetchArg(s)) && KernelFetch.Encodes(k, arg)
    requires k.isMemory && k.Steps() == KernelFetch.Int16Steps(SpecSteps(s))
    requires KernelFetch.ReadReg(ctx, k.reg) == ctx(SpecReg(s))
    ensures KernelFetch.FetchOne(ctx, mem, k) == Exec(ctx, mem, s)
  {
    hide KernelFetch.ReadReg, KernelFetch.FetchAt, KernelFetch.Encodes, KernelFetch.KernelRule.Steps, SameFetch, ToFetchArg, ByteSized;
    EncodedSize(s, arg, k);
    if s.ItabSpec? {
      assert KernelFetch.Int16Steps(SpecSteps(s)) == SpecSteps(s);
    }
  }

  lemma EncodedSize(s: ArgSpec, arg: FetchArg, k: KernelFetch.KernelRule)
    requires !s.WordSpec? && ByteSized(s) && SameFetch(arg, ToFetchArg(s)) && KernelFetch.Encodes(k, arg)
    ensures k.Valid()
    ensures s.ItabSpec? ==> k.size == 8 && k.nilCheck
    ensures s.LocSpec? ==> k.size == s.size && k.nilCheck == s.loc.nilCheck
  {
    hide KernelFetch.RegisterConstant, StackRules, KernelFetch.RuleSteps, KernelFetch.KernelRule.Steps;
  }

  lemma EncodedSteps(s: ArgSpec, arg: FetchArg, k: KernelFetch.KernelRule)
    requires !s.WordSpec? && SameFetch(arg, ToFetchArg(s)) && KernelFetch.Encodes(k, arg)
    ensures k.Valid() && k.isMemory && k.Steps() == KernelFetch.Int16Steps(SpecSteps(s))
  {
    AddressingSteps(SpecReg(s), SpecSteps(s));
    assert arg.rules == [RegRule(SpecReg(s))] + StackRules(SpecSteps(s));
  }

  lemma AddressingSteps(reg: string, steps: seq<Step>)
    ensures var rules := [RegRule(reg)] + StackRules(steps);
            KernelFetch.RegisterFirst(rules) && KernelFetch.RuleSteps(rules) == steps
  {
    var rules := [RegRule(reg)] + StackRules(steps);
    KernelFetch.RuleStepsOf(rules);
    forall i | 0 <= i < |steps|
      ensures KernelFetch.RuleSteps(rules)[i] == steps[i]
    {
      assert StackRule(KernelFetch.RuleSteps(rules)[i]) == rules[i + 1];
    }
  }

  // ---- the kernel's path and the decoder's address ----

  lemma {:induction false} WalkAppend(mem: Memory, addr: nat, a: seq<Step>, b: seq<Step>)
    ensures KernelFetch.Walk(mem, addr, a + b)
         == match KernelFetch.Walk(mem, addr, a)
            case None => None
            case Some(next) => KernelFetch.Walk(mem, next, b)
    decreases |a|
  {
    if a == [] {
      assert a + b == b;
    } else {
      assert (a + b)[0] == a[0] && (a + b)[1..] == a[1..] + b;
      if a[0].deref {
        var w := ReadUser(mem, addr + a[0].offset, 8);
        if w.Some? { WalkAppend(mem, LittleEndian(w.value), a[1..], b); }
      } else {
        WalkAppend(mem, (addr + a[0].offset) % ADDRESSES, a[1..], b);
      }
    }
  }

  /** The location's path leads the kernel to `addr`. */
  predicate Reaches(mem: Memory, base: nat, steps: seq<Step>, addr: nat)
  {
    KernelFetch.Walk(mem, base, KernelFetch.Int16Steps(steps)) == Some(addr)
  }

  lemma ReachesStep(mem: Memory, base: nat, steps: seq<Step>, addr: nat, s: Step)
    requires Reaches(mem, base, steps, addr) && 0 <= s.offset < 0x8000
    ensures KernelFetch.Walk(mem, base, KernelFetch.Int16Steps(steps + [s])) == KernelFetch.Walk(mem, addr, [s])
  {
    assert KernelFetch.Int16Step(s) == s;
    assert KernelFetch.Int16Steps(steps + [s]) == KernelFetch.Int16Steps(steps) + [s];
    WalkAppend(mem, base, KernelFetch.Int16Steps(steps), [s]);
  }

  lemma ReachesAdd(mem: Memory, base: nat, loc: MemLoc, addr: nat, offset: int)
    requires Reaches(mem, base, loc.steps, addr) && 0 <= offset < 0x8000 && addr < ADDRESSES
    ensures Reaches(mem, base, loc.Add(offset).steps, (addr + offset) % ADDRESSES)
  {
    if offset != 0 {
      ReachesStep(mem, base, loc.steps, addr, Step(offset, false));
      assert [Step(offset, false)][1..] == [];
    }
  }

  /** `data` is what memory holds from `addr` on. */
  predicate Holds(mem: Memory, addr: nat, data: Bytes)
  {
    forall i | 0 <= i < |data| :: LiveByte(mem, At(addr, i)) == Some(data[i])
  }

  lemma ReachesDeref(mem: Memory, base: nat, loc: MemLoc, addr: nat, data: Bytes, offset: nat)
    requires Reaches(mem, base, loc.steps, addr) && Holds(mem, addr, data) && offset + 8 <= |data| <= 64
    ensures Reaches(mem, base, loc.Deref(offset).steps, ReadUint(data[offset..]))
  {
    var s := Step(offset, true);
    ReachesStep(mem, base, loc.steps, addr, s);
    assert [s][1..] == [];
    var word := data[offset..][..8];
    forall i | 0 <= i < 8
      ensures LiveByte(mem, At(addr + offset, i)) == Some(word[i])
    {
      assert LiveByte(mem, At(addr, offset + i)) == Some(data[offset + i]);
    }
    LiveRead(mem, addr + offset, word);
  }

  lemma HoldsField(mem: Memory, addr: nat, data: Bytes, offset: int)
    requires Holds(mem, addr, data)
    ensures FieldMem(data, offset) == [] || Holds(mem, (addr + offset) % ADDRESSES, FieldMem(data, offset))
  {
    var own := FieldMem(data, offset);
    forall i | 0 <= i < |own|
      ensures LiveByte(mem, At((addr + offset) % ADDRESSES, i)) == Some(own[i])
    {
      AtShift(addr, offset, i);
      assert LiveByte(mem, At(addr, offset + i)) == Some(data[offset + i]);
    }
  }

  /** Where one leaf is bound is where the kernel read it. */
  predicate SameAddress(mem: Memory, base: nat, s: ArgSpec, bound: nat)
  {
    s.LocSpec? && (bound == 0 || Reaches(mem, base, SpecSteps(s), bound))
  }

  predicate SameAddresses(mem: Memory, base: nat, specs: seq<ArgSpec>, bound: seq<nat>)
  {
    |specs| == |bound| && forall i | 0 <= i < |specs| :: SameAddress(mem, base, specs[i], bound[i])
  }

  lemma SameAddressesAppend(mem: Memory, base: nat, s1: seq<ArgSpec>, b1: seq<nat>, s2: seq<ArgSpec>, b2: seq<nat>)
    requires SameAddresses(mem, base, s1, b1) && SameAddresses(mem, base, s2, b2)
    ensures SameAddresses(mem, base, s1 + s2, b1 + b2)
  {
    forall i | 0 <= i < |s1| + |s2|
      ensures SameAddress(mem, base, (s1 + s2)[i], (b1 + b2)[i])
    {
      if i < |s1| {
        assert (s1 + s2)[i] == s1[i] && (b1 + b2)[i] == b1[i];
      } else {
        assert (s1 + s2)[i] == s2[i - |s1|] && (b1 + b2)[i] == b2[i - |s1|];
      }
    }
  }

  /** For every type, however nested, and every memory: the address the decoder reads out of the
   *  object's bytes for a leaf is the address the kernel's add and load steps reached. */
  lemma {:induction false} MemPathsAgree(t: GoType, name: string, loc: MemLoc, mem: Memory, base: nat, addr: nat, data: Bytes)
    requires |data| <= 64 && addr < ADDRESSES
    requires data != [] ==> Reaches(mem, base, loc.steps, addr) && Holds(mem, addr, data)
    ensures SameAddresses(mem, base, MemSpecs(t, name, loc), MemAddrs(t, data))
    decreases t
  {
    match t
    case Named(b) => MemPathsAgree(b, name, loc, mem, base, addr, data);
    case Str => FirstWordAgrees(loc, mem, base, addr, data);
    case Slice(_, _) => FirstWordAgrees(loc, mem, base, addr, data);
    case Iface(nonEmpty) => IfacePathsAgree(nonEmpty, name, loc, mem, base, addr, data);
    case Struct(_, fields, _) => FieldPathsAgree(fields, name, loc, mem, base, addr, data);
    case _ =>
  }

  lemma FirstWordAgrees(loc: MemLoc, mem: Memory, base: nat, addr: nat, data: Bytes)
    requires |data| <= 64
    requires data != [] ==> Reaches(mem, base, loc.steps, addr) && Holds(mem, addr, data)
    ensures FirstWord(data) == 0 || Reaches(mem, base, loc.Deref(0).steps, FirstWord(data))
  {
    if |data| >= 8 {
      ReachesDeref(mem, base, loc, addr, data, 0);
      assert data[0..] == data;
    }
  }

  lemma IfacePathsAgree(nonEmpty: bool, name: string, loc: MemLoc, mem: Memory, base: nat, addr: nat, data: Bytes)
    requires |data| <= 64
    requires data != [] ==> Reaches(mem, base, loc.steps, addr) && Holds(mem, addr, data)
    ensures var t := Iface(nonEmpty);
            SameAddresses(mem, base, MemSpecs(t, name, loc), MemAddrs(t, data))
  {
    hide Reaches, Holds;
    var t := Iface(nonEmpty);
    var words := [LocSpec(name + ".data", loc.Add(8), 8), BlobAt(name + ".value", loc.Deref(8))];
    DataPathAgrees(name, loc, mem, base, addr, data);
    if nonEmpty {
      var itab := if |data| >= 8 then (ReadUint(data) + 8) % ADDRESSES else 0;
      var typeWord := LocSpec(name + ".type", loc.Deref(0).Add(8), 8);
      ItabPathAgrees(name, loc, mem, base, addr, data);
      SameAddressesAppend(mem, base, [typeWord], [itab], words, [0, SecondWord(data)]);
    } else {
      assert MemSpecs(t, name, loc) == words && MemAddrs(t, data) == [0, SecondWord(data)];
    }
  }

  /** The data word's own leaf is bound nowhere; the value's is bound where the data word leads. */
  lemma DataPathAgrees(name: string, loc: MemLoc, mem: Memory, base: nat, addr: nat, data: Bytes)
    requires |data| <= 64
    requires data != [] ==> Reaches(mem, base, loc.steps, addr) && Holds(mem, addr, data)
    ensures var words := [LocSpec(name + ".data", loc.Add(8), 8), BlobAt(name + ".value", loc.Deref(8))];
            SameAddresses(mem, base, words, [0, SecondWord(data)])
  {
    hide Reaches, Holds;
    if |data| >= 16 {
      ReachesDeref(mem, base, loc, addr, data, 8);
    }
  }

  /** The type word's leaf is bound where the itab leads. */
  lemma ItabPathAgrees(name: string, loc: MemLoc, mem: Memory, base: nat, addr: nat, data: Bytes)
    requires |data| <= 64
    requires data != [] ==> Reaches(mem, base, loc.steps, addr) && Holds(mem, addr, data)
    ensures var itab := if |data| >= 8 then (ReadUint(data) + 8) % ADDRESSES else 0;
            var typeWord := LocSpec(name + ".type", loc.Deref(0).Add(8), 8);
            SameAddresses(mem, base, [typeWord], [itab])
  {
    hide Reaches, Holds;
    if |data| >= 8 {
      ReachesDeref(mem, base, loc, addr, data, 0);
      assert data[0..] == data;
      WordBound(data[..8]);
      ReachesAdd(mem, base, loc.Deref(0), ReadUint(data), 8);
    }
  }

  lemma {:induction false} FieldPathsAgree(fields: seq<Field>, name: string, loc: MemLoc, mem: Memory, base: nat, addr: nat, data: Bytes)
    requires |data| <= 64 && addr < ADDRESSES
    requires data != [] ==> Reaches(mem, base, loc.steps, addr) && Holds(mem, addr, data)
    ensures SameAddresses(mem, base, FieldMemSpecs(fields, name, loc), FieldMemAddrs(fields, data))
    decreases fields
  {
    if fields != [] {
      var f := fields[0];
      var own := FieldMem(data, f.offset);
      if own != [] {
        ReachesAdd(mem, base, loc, addr, f.offset);
        HoldsField(mem, addr, data, f.offset);
      }
      var fieldName := name + "." + f.name;
      MemPathsAgree(f.typ, fieldName, loc.Add(f.offset), mem, base, (addr + f.offset) % ADDRESSES, own);
      FieldPathsAgree(fields[1..], name, loc, mem, base, addr, data);
      SameAddressesAppend(mem, base, MemSpecs(f.typ, fieldName, loc.Add(f.offset)), MemAddrs(f.typ, own),
                          FieldMemSpecs(fields[1..], name, loc), FieldMemAddrs(fields[1..], data));
    }
  }

  // ---- snapshot soundness ----

  /** The bytes a leaf's rule fetched: the rest of its 64-byte slot is padding. */
  function Extent(s: ArgSpec): nat
  {
    if s.LocSpec? then KernelFetch.Min(s.size, 64) else 8
  }

  /** A bound leaf holds the memory at its address, on the bytes its rule fetched. */
  predicate BoundTruly(mem: Memory, s: ArgSpec, leaf: LeafData, bound: nat)
  {
    Put(bound, leaf) == [] || Holds(mem, bound, Take(leaf.data, Extent(s)))
  }

  function Take(b: Bytes, n: nat): Bytes
  {
    if n <= |b| then b[..n] else b
  }

  lemma ExecHolds(ctx: KernelFetch.PtRegs, mem: Memory, s: ArgSpec, bound: nat)
    requires s.LocSpec? && SameAddress(mem, LittleEndian(ctx(SpecReg(s))), s, bound)
    ensures BoundTruly(mem, s, Exec(ctx, mem, s), bound)
  {
    var leaf := Exec(ctx, mem, s);
    if Put(bound, leaf) != [] {
      var n := Extent(s);
      var b := ReadUser(mem, bound, n).value;
      assert leaf.data[..n] == b;
    }
  }

  /** Snapshot soundness for a pointed-to object: every leaf the decoder binds while it walks the
   *  object's captured prefix holds the memory at that address on the bytes its rule fetched. */
  lemma ObjectSnapshotSound(t: GoType, name: string, reg: string, ctx: KernelFetch.PtRegs, mem: Memory, obj: Bytes)
    requires |obj| == 64 && Holds(mem, LittleEndian(ctx(reg)), obj)
    ensures var specs := MemSpecs(t, name, MemLoc(reg, [], true));
            && |specs| == |MemAddrs(t, obj)|
            && forall i | 0 <= i < |specs| ::
                 BoundTruly(mem, specs[i], Exec(ctx, mem, specs[i]), MemAddrs(t, obj)[i])
  {
    var loc := MemLoc(reg, [], true);
    var base := LittleEndian(ctx(reg));
    WordBound(ctx(reg));
    assert Reaches(mem, base, loc.steps, base);
    MemPathsAgree(t, name, loc, mem, base, base, obj);
    MemSpecsReg(t, name, loc);
    var specs := MemSpecs(t, name, loc);
    forall i | 0 <= i < |specs|
      ensures BoundTruly(mem, specs[i], Exec(ctx, mem, specs[i]), MemAddrs(t, obj)[i])
    {
      assert SameAddress(mem, base, specs[i], MemAddrs(t, obj)[i]) && SpecReg(specs[i]) == reg;
      ExecHolds(ctx, mem, specs[i], MemAddrs(t, obj)[i]);
    }
  }

  /** Every leaf of an object is addressed from the object's own register. */
  lemma {:induction false} MemSpecsReg(t: GoType, name: string, loc: MemLoc)
    ensures forall s <- MemSpecs(t, name, loc) :: SpecReg(s) == loc.reg && s.LocSpec? && s.size <= 64
    decreases t
  {
    match t
    case Named(b) => MemSpecsReg(b, name, loc);
    case Struct(_, fields, _) => FieldMemSpecsReg(fields, name, loc);
    case _ =>
  }

  lemma {:induction false} FieldMemSpecsReg(fields: seq<Field>, name: string, loc: MemLoc)
    ensures forall s <- FieldMemSpecs(fields, name, loc) :: SpecReg(s) == loc.reg && s.LocSpec? && s.size <= 64
    decreases fields
  {
    if fields != [] {
      MemSpecsReg(fields[0].typ, name + "." + fields[0].name, loc.Add(fields[0].offset));
      FieldMemSpecsReg(fields[1..], name, loc);
    }
  }
}
