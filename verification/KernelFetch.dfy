/** Target memory, the kernel's encoding of fetch rules, and the probe code that runs them. */
module TargetMemory {
  import opened Wrappers
  import opened Words

  /** The bytes mapped in the traced process, by address. */
  type Memory = map<int, Byte>

  /** The address of the i-th byte from `addr` on. */
  function At(addr: int, i: int): nat
  {
    (addr + i) % ADDRESSES
  }

  predicate Readable(mem: Memory, addr: int, n: nat)
  {
    forall i | 0 <= i < n :: At(addr, i) in mem
  }

  /** `bpf_probe_read_user`: all `n` bytes or a failure. */
  function ReadUser(mem: Memory, addr: int, n: nat): (r: Option<Bytes>)
    ensures r.Some? == Readable(mem, addr, n)
    ensures r.Some? ==> |r.value| == n && forall i | 0 <= i < n :: r.value[i] == mem[At(addr, i)]
  {
    if Readable(mem, addr, n) then
      Some(seq(n, i requires 0 <= i < n && At(addr, i) in mem => mem[At(addr, i)]))
    else None
  }

  function Zeros(n: nat): (z: Bytes)
    ensures |z| == n
  {
    seq(n, _ => 0)
  }
}

module KernelFetch {
  import opened Wrappers
  import opened Words
  import opened TargetMemory
  import opened FetchRules

  const MAX_DATA_SIZE := 64

  /** `struct arg_data`. */
  datatype ArgData = ArgData(data: Bytes, isNil: bool, readError: bool)
  {
    ghost predicate Valid() { |data| == MAX_DATA_SIZE }
  }

  const EMPTY_ARG := ArgData(Zeros(MAX_DATA_SIZE), false, false)

  /** `struct arg_rule`; `offsets` and `derefs` always hold eight entries. */
  datatype KernelRule = KernelRule(
    isMemory: bool,
    reg: nat,
    size: nat,
    length: nat,
    offsets: seq<int>,
    derefs: seq<bool>,
    nilCheck: bool,
    ifaceData: bool,
    typeIdx: nat)
  {
    ghost predicate Valid() { |offsets| == 8 && |derefs| == 8 && length <= 8 }

    /** The steps the probe's loop runs. */
    function Steps(): seq<Step>
      requires Valid()
    {
      seq(length, i requires 0 <= i < length => Step(offsets[i], derefs[i]))
    }
  }

  // ---- encoding (`setArgRules`) ----

  const REGISTER_CONSTANTS: map<string, nat> := map[
    "ax" := 0, "dx" := 1, "cx" := 2, "bx" := 3, "si" := 4, "di" := 5, "bp" := 6, "sp" := 7,
    "r8" := 8, "r9" := 9, "r10" := 10, "r11" := 11, "r12" := 12, "r13" := 13, "r14" := 14, "r15" := 15]

  function RegisterConstant(name: string): nat
  {
    if name in REGISTER_CONSTANTS then REGISTER_CONSTANTS[name] else 0
  }

  function Int16(n: int): int
  {
    (n + 0x8000) % 0x1_0000 - 0x8000
  }

  function Uint8(n: nat): nat
  {
    n % 256
  }

  function RuleSteps(rules: seq<ArgRule>): (steps: seq<Step>)
    ensures |steps| <= |rules|
  {
    if rules == [] then []
    else (if rules[0].StackRule? then [rules[0].step] else []) + RuleSteps(rules[1..])
  }

  function Int16Step(s: Step): Step
  {
    Step(Int16(s.offset), s.deref)
  }

  function Int16Steps(steps: seq<Step>): (r: seq<Step>)
    ensures |r| == |steps|
    ensures forall i | 0 <= i < |steps| :: r[i] == Int16Step(steps[i])
  {
    seq(|steps|, i requires 0 <= i < |steps| => Int16Step(steps[i]))
  }

  /** A rule that starts at a register and then only addresses memory, as every rule does. */
  ghost predicate RegisterFirst(rules: seq<ArgRule>)
  {
    |rules| > 0 && rules[0].RegRule? && forall i | 0 < i < |rules| :: rules[i].StackRule?
  }

  /** What an encoded rule must mean. */
  ghost predicate Encodes(k: KernelRule, arg: FetchArg)
    requires |arg.rules| > 0
  {
    && k.Valid()
    && k.isMemory == arg.rules[|arg.rules| - 1].StackRule?
    && k.reg == RegisterConstant(if arg.rules[0].RegRule? then arg.rules[0].reg else "")
    && k.size == Uint8(arg.size)
    && k.length == |arg.rules| - 1
    && k.nilCheck == arg.nilCheck
    && k.ifaceData == arg.ifaceData
    && k.typeIdx == (if arg.ifaceData then Uint8(arg.typeIndex) else 0)
    && (RegisterFirst(arg.rules) ==> k.Steps() == Int16Steps(RuleSteps(arg.rules)))
  }

  lemma {:induction false} RuleStepsOf(rules: seq<ArgRule>)
    requires RegisterFirst(rules)
    ensures |RuleSteps(rules)| == |rules| - 1
    ensures forall i | 0 <= i < |rules| - 1 :: StackRule(RuleSteps(rules)[i]) == rules[i + 1]
  {
    RuleStepsAll(rules[1..]);
  }

  lemma {:induction false} RuleStepsAll(rules: seq<ArgRule>)
    requires forall r <- rules :: r.StackRule?
    ensures |RuleSteps(rules)| == |rules|
    ensures forall i | 0 <= i < |rules| :: StackRule(RuleSteps(rules)[i]) == rules[i]
  {
    if rules != [] {
      RuleStepsAll(rules[1..]);
    }
  }

  /** The loop over a rule list: every memory step into the next of the eight entries. */
  method EncodeSteps(rules: seq<ArgRule>) returns (offsets: seq<int>, derefs: seq<bool>)
    requires |rules| <= MAX_FETCH_ARG_RULES
    ensures |offsets| == 8 && |derefs| == 8
    ensures forall m | 0 <= m < |RuleSteps(rules)| :: Step(offsets[m], derefs[m]) == Int16Step(RuleSteps(rules)[m])
  {
    hide Int16;
    offsets := [0, 0, 0, 0, 0, 0, 0, 0];
    derefs := [false, false, false, false, false, false, false, false];
    var j := 0;
    ghost var done: seq<Step> := [];
    for i := 0 to |rules|
      invariant |offsets| == 8 && |derefs| == 8 && j == |done| <= i
      invariant RuleSteps(rules) == done + RuleSteps(rules[i..])
      invariant forall m | 0 <= m < j :: Step(offsets[m], derefs[m]) == Int16Step(done[m])
    {
      assert rules[i..][1..] == rules[i + 1..];
      if rules[i].StackRule? {
        offsets := offsets[j := Int16(rules[i].step.offset)];
        derefs := derefs[j := rules[i].step.deref];
        done := done + [rules[i].step];
        j := j + 1;
      }
    }
    assert rules[|rules|..] == [];
  }

  method EncodeRule(arg: FetchArg) returns (k: KernelRule)
    requires 0 < |arg.rules| <= MAX_FETCH_ARG_RULES
    ensures Encodes(k, arg)
  {
    hide Int16, Uint8, RegisterConstant, RuleSteps;
    var offsets, derefs := EncodeSteps(arg.rules);
    k := KernelRule(
      arg.rules[|arg.rules| - 1].StackRule?,
      RegisterConstant(if arg.rules[0].RegRule? then arg.rules[0].reg else ""),
      Uint8(arg.size), |arg.rules| - 1, offsets, derefs, arg.nilCheck, arg.ifaceData,
      if arg.ifaceData then Uint8(arg.typeIndex) else 0);
    if RegisterFirst(arg.rules) {
      RuleStepsOf(arg.rules);
    }
  }

  datatype Installation =
    | Installed(rules: seq<KernelRule>)
    | Refused
    | Panicked   // `setArgRules` indexes into an empty rule list

  /** The first `n` fetches are each of a size that can be encoded. */
  predicate EncodableUpTo(args: seq<FetchArg>, n: nat)
    requires n <= |args|
  {
    forall m | 0 <= m < n :: 0 < |args[m].rules| <= MAX_FETCH_ARG_RULES
  }

  /** The first fetch that cannot be encoded. */
  ghost predicate FirstFault(args: seq<FetchArg>, i: nat)
  {
    i < |args| && EncodableUpTo(args, i) && !(0 < |args[i].rules| <= MAX_FETCH_ARG_RULES)
  }

  lemma OnlyFault(args: seq<FetchArg>, i: nat)
    requires i < |args| && EncodableUpTo(args, i) && !(0 < |args[i].rules| <= MAX_FETCH_ARG_RULES)
    ensures forall j: nat :: FirstFault(args, j) <==> j == i
  {
  }

  /** `setArgRules`: refuses probes with too many fetches or, at the first fetch that cannot be
   *  encoded, too long an addressing path; a fetch without rules makes it panic there instead.
   *  Nothing is installed in either case. */
  method SetArgRules(args: seq<FetchArg>) returns (r: Installation)
    ensures r.Installed? <==> |args| <= MAX_FETCH_ARGS && EncodableUpTo(args, |args|)
    ensures r.Refused? <==> |args| > MAX_FETCH_ARGS || exists i: nat :: FirstFault(args, i) && |args[i].rules| > MAX_FETCH_ARG_RULES
    ensures r.Panicked? <==> |args| <= MAX_FETCH_ARGS && exists i: nat :: FirstFault(args, i) && |args[i].rules| == 0
    ensures r.Installed? ==> |r.rules| == |args| && forall i | 0 <= i < |args| :: Encodes(r.rules[i], args[i])
  {
    if |args| > MAX_FETCH_ARGS {
      return Refused;
    }
    var rules := [];
    for i := 0 to |args|
      invariant |rules| == i && EncodableUpTo(args, i)
      invariant forall m | 0 <= m < i :: Encodes(rules[m], args[m])
    {
      if |args[i].rules| > MAX_FETCH_ARG_RULES {
        OnlyFault(args, i);
        return Refused;
      }
      if |args[i].rules| == 0 {
        OnlyFault(args, i);
        return Panicked;
      }
      var k := EncodeRule(args[i]);
      rules := rules + [k];
    }
    return Installed(rules);
  }

  // ---- execution ----

  /** `struct pt_regs`, by field name. */
  type PtRegs = string -> Word

  /** `read_reg`: the switch from register number to saved register. */
  function ReadReg(ctx: PtRegs, reg: nat): Word
  {
    match reg
    case 0 => ctx("ax")
    case 1 => ctx("dx")
    case 2 => ctx("cx")
    case 3 => ctx("bx")
    case 4 => ctx("si")
    case 5 => ctx("di")
    case 6 => ctx("bp")
    case 7 => ctx("sp")
    case 8 => ctx("r8")
    case 9 => ctx("r9")
    case 10 => ctx("r10")
    case 11 => ctx("r11")
    case 12 => ctx("r12")
    case 13 => ctx("r13")
    case 14 => ctx("r14")
    case 15 => ctx("r15")
    case _ => ZERO_WORD
  }

  /** The Go side's register numbers are the kernel side's. */
  lemma RegisterNumbersAgree(ctx: PtRegs, name: string)
    requires name in REGISTER_CONSTANTS
    ensures ReadReg(ctx, RegisterConstant(name)) == ctx(name)
  {
  }

  /** The address a path of steps leads to; None when a load on the way fails. */
  function Walk(mem: Memory, addr: nat, steps: seq<Step>): Option<nat>
    decreases |steps|
  {
    if steps == [] then Some(addr)
    else if steps[0].deref then
      match ReadUser(mem, addr + steps[0].offset, 8)
      case None => None
      case Some(w) => Walk(mem, LittleEndian(w), steps[1..])
    else
      Walk(mem, (addr + steps[0].offset) % ADDRESSES, steps[1..])
  }

  function Min(a: nat, b: nat): nat
  {
    if a < b then a else b
  }

  /** The leaf a memory rule produces from its base address. */
  function FetchAt(mem: Memory, base: nat, steps: seq<Step>, size: nat, nilCheck: bool): (a: ArgData)
    ensures a.Valid()
  {
    if nilCheck && base == 0 then EMPTY_ARG.(isNil := true)
    else
      match Walk(mem, base, steps)
      case None => EMPTY_ARG.(readError := true)
      case Some(addr) =>
        var n := Min(size, MAX_DATA_SIZE);
        match ReadUser(mem, addr, n)
        case None => EMPTY_ARG.(readError := true)
        case Some(b) => ArgData(b + Zeros(MAX_DATA_SIZE - n), false, false)
  }

  function FetchOne(ctx: PtRegs, mem: Memory, rule: KernelRule): (a: ArgData)
    requires rule.Valid()
    ensures a.Valid()
  {
    var word := ReadReg(ctx, rule.reg);
    if rule.isMemory then FetchAt(mem, LittleEndian(word), rule.Steps(), rule.size, rule.nilCheck)
    else ArgData(word + Zeros(MAX_DATA_SIZE - 8), false, false)
  }

  function FetchAll(ctx: PtRegs, mem: Memory, rules: seq<KernelRule>): (leaves: seq<ArgData>)
    requires forall r <- rules :: r.Valid()
    ensures |leaves| == |rules|
    ensures forall i | 0 <= i < |rules| :: leaves[i] == FetchOne(ctx, mem, rules[i])
  {
    seq(|rules|, i requires 0 <= i < |rules| && rules[i].Valid() => FetchOne(ctx, mem, rules[i]))
  }

  // ---- type recipes ----

  /** `struct rel_rule`, its nil check always set. */
  datatype KernelRelRule = KernelRelRule(size: nat, length: nat, offsets: seq<int>, derefs: seq<bool>)
  {
    ghost predicate Valid() { |offsets| == 8 && |derefs| == 8 }

    /** The probe's loop stops after eight steps whatever `length` says. */
    function Steps(): seq<Step>
      requires Valid()
    {
      var n := Min(length, 8);
      seq(n, i requires 0 <= i < n => Step(offsets[i], derefs[i]))
    }
  }

  type KernelRecipes = map<nat, seq<KernelRelRule>>

  ghost predicate ValidRecipes(recipes: KernelRecipes)
  {
    forall t <- recipes :: |recipes[t]| <= 4 && forall r <- recipes[t] :: r.Valid()
  }

  function RelLeaf(mem: Memory, base: nat, r: KernelRelRule): (a: ArgData)
    requires r.Valid()
    ensures a.Valid()
  {
    FetchAt(mem, base, r.Steps(), r.size, true)
  }

  /** The leaves one recipe adds for a data pointer. */
  function RecipeLeaves(mem: Memory, base: nat, recipe: seq<KernelRelRule>): (leaves: seq<ArgData>)
    requires forall r <- recipe :: r.Valid()
    ensures |leaves| == |recipe|
    ensures forall i | 0 <= i < |recipe| :: leaves[i] == RelLeaf(mem, base, recipe[i])
  {
    seq(|recipe|, i requires 0 <= i < |recipe| && recipe[i].Valid() => RelLeaf(mem, base, recipe[i]))
  }

  /** `load_arg_word`: slots that no leaf was stored in are zero. */
  function LoadArgWord(leaves: seq<ArgData>, idx: nat): nat
  {
    if idx < |leaves| then ReadUint(leaves[idx].data) else 0
  }

  predicate HasRecipe(rule: KernelRule, leaves: seq<ArgData>, recipes: KernelRecipes)
  {
    && rule.ifaceData && rule.typeIdx < 8
    && LoadArgWord(leaves, rule.typeIdx) != 0
    && LoadArgWord(leaves, rule.typeIdx) in recipes
  }

  function Take<T>(s: seq<T>, n: nat): seq<T>
  {
    if |s| <= n then s else s[..n]
  }

  /** The event's leaves once rule `i` has appended its recipe's leaves, eight leaves at most. */
  function AfterRule(mem: Memory, rules: seq<KernelRule>, i: nat, leaves: seq<ArgData>,
                     recipes: KernelRecipes): (r: seq<ArgData>)
    requires ValidRecipes(recipes) && |leaves| <= MAX_FETCH_ARGS && i < |rules|
    requires forall a <- leaves :: a.Valid()
    ensures |leaves| <= |r| <= MAX_FETCH_ARGS && r[..|leaves|] == leaves
    ensures forall a <- r :: a.Valid()
  {
    if !HasRecipe(rules[i], leaves, recipes) then leaves
    else
      var recipe := recipes[LoadArgWord(leaves, rules[i].typeIdx)];
      var more := RecipeLeaves(mem, LoadArgWord(leaves, i), recipe);
      leaves + Take(more, MAX_FETCH_ARGS - |leaves|)
  }

  /** `apply_type_recipes` from rule `i` on. */
  function WithRecipes(mem: Memory, rules: seq<KernelRule>, i: nat, leaves: seq<ArgData>,
                       recipes: KernelRecipes): (r: seq<ArgData>)
    requires ValidRecipes(recipes) && |leaves| <= MAX_FETCH_ARGS
    requires forall a <- leaves :: a.Valid()
    ensures |leaves| <= |r| <= MAX_FETCH_ARGS && r[..|leaves|] == leaves
    ensures forall a <- r :: a.Valid()
    decreases |rules| - i
  {
    if i >= |rules| then leaves
    else
      var next := AfterRule(mem, rules, i, leaves, recipes);
      var r := WithRecipes(mem, rules, i + 1, next, recipes);
      assert r[..|leaves|] == r[..|next|][..|leaves|];
      r
  }

  /** The scratch event a probe fills: eight leaf slots and a count. */
  class EventBuffer {
    const args: array<ArgData>
    var argCount: nat

    ghost predicate Valid()
      reads this, args
    {
      args.Length == 8 && argCount <= 8
      && forall i | 0 <= i < 8 :: args[i].Valid() && (argCount <= i ==> args[i] == EMPTY_ARG)
    }

    ghost function Leaves(): seq<ArgData>
      reads this, args
      requires Valid()
    {
      args[..argCount]
    }

    /** The buffer as `__builtin_memset` leaves it. */
    constructor ()
      ensures Valid() && fresh(args) && Leaves() == []
    {
      args := new ArgData[8](_ => EMPTY_ARG);
      argCount := 0;
    }

    /** `fetch_args_from_memory` and `fetch_from_base`: the unrolled addressing loop. */
    static method FetchFromMemory(mem: Memory, base: nat, steps: seq<Step>, size: nat, nilCheck: bool)
      returns (a: ArgData)
      ensures a == FetchAt(mem, base, steps, size, nilCheck)
    {
      var addr: nat := base;
      if nilCheck && addr == 0 {
        return EMPTY_ARG.(isNil := true);
      }
      var i := 0;
      while i < |steps|
        invariant 0 <= i <= |steps|
        invariant Walk(mem, base, steps) == Walk(mem, addr, steps[i..])
      {
        assert steps[i..][1..] == steps[i + 1..];
        if steps[i].deref {
          var w := ReadUser(mem, addr + steps[i].offset, 8);
          if w.None? {
            return EMPTY_ARG.(readError := true);
          }
          addr := LittleEndian(w.value);
        } else {
          addr := (addr + steps[i].offset) % ADDRESSES;
        }
        i := i + 1;
      }
      assert steps[|steps|..] == [];
      var n := Min(size, MAX_DATA_SIZE);
      if n == 0 {
        assert ReadUser(mem, addr, 0) == Some([]);
        assert [] + Zeros(MAX_DATA_SIZE) == Zeros(MAX_DATA_SIZE);
        return EMPTY_ARG;
      }
      var b := ReadUser(mem, addr, n);
      if b.None? {
        return EMPTY_ARG.(readError := true);
      }
      return ArgData(b.value + Zeros(MAX_DATA_SIZE - n), false, false);
    }

    /** `fetch_args`: every rule into its own slot, then the type recipes. */
    method FetchArgs(ctx: PtRegs, mem: Memory, rules: seq<KernelRule>, recipes: KernelRecipes)
      requires Valid() && argCount == 0
      requires |rules| <= 8 && (forall r <- rules :: r.Valid()) && ValidRecipes(recipes)
      modifies this`argCount, args
      ensures Valid()
      ensures Leaves() == WithRecipes(mem, rules, 0, FetchAll(ctx, mem, rules), recipes)
    {
      argCount := |rules|;
      FetchGeneric(ctx, mem, rules);
      ApplyTypeRecipes(mem, rules, recipes);
    }

    method FetchGeneric(ctx: PtRegs, mem: Memory, rules: seq<KernelRule>)
      requires Valid() && argCount == |rules|
      requires forall i | 0 <= i < 8 :: args[i] == EMPTY_ARG
      requires forall r <- rules :: r.Valid()
      modifies args
      ensures Valid()
      ensures Leaves() == FetchAll(ctx, mem, rules)
    {
      for i := 0 to |rules|
        invariant forall m | 0 <= m < 8 :: args[m].Valid()
        invariant forall m | 0 <= m < i :: args[m] == FetchOne(ctx, mem, rules[m])
        invariant forall m | i <= m < 8 :: args[m] == EMPTY_ARG
      {
        var leaf := FetchRule(ctx, mem, rules[i]);
        args[i] := leaf;
      }
    }

    static method FetchRule(ctx: PtRegs, mem: Memory, rule: KernelRule) returns (leaf: ArgData)
      requires rule.Valid()
      ensures leaf == FetchOne(ctx, mem, rule)
    {
      var word := ReadReg(ctx, rule.reg);
      if rule.isMemory {
        leaf := FetchFromMemory(mem, LittleEndian(word), rule.Steps(), rule.size, rule.nilCheck);
      } else {
        leaf := ArgData(word + Zeros(MAX_DATA_SIZE - 8), false, false);
      }
    }

    method LoadArg(idx: nat) returns (w: nat)
      requires Valid() && idx < 8
      ensures w == LoadArgWord(Leaves(), idx)
    {
      w := ReadUint(args[idx].data);
      EmptyWord();
    }

    method ApplyTypeRecipes(mem: Memory, rules: seq<KernelRule>, recipes: KernelRecipes)
      requires Valid() && |rules| <= argCount
      requires ValidRecipes(recipes)
      modifies this`argCount, args
      ensures Valid()
      ensures Leaves() == WithRecipes(mem, rules, 0, old(Leaves()), recipes)
    {
      ghost var goal := WithRecipes(mem, rules, 0, Leaves(), recipes);
      for i := 0 to |rules|
        invariant Valid() && |rules| <= argCount
        invariant WithRecipes(mem, rules, i, Leaves(), recipes) == goal
      {
        ApplyRule(mem, rules, i, recipes);
      }
    }

    method ApplyRule(mem: Memory, rules: seq<KernelRule>, i: nat, recipes: KernelRecipes)
      requires Valid() && i < |rules| <= argCount
      requires ValidRecipes(recipes)
      modifies this`argCount, args
      ensures Valid() && old(argCount) <= argCount
      ensures Leaves() == AfterRule(mem, rules, i, old(Leaves()), recipes)
    {
      if !rules[i].ifaceData || rules[i].typeIdx >= 8 {
        return;
      }
      var typeAddr := LoadArg(rules[i].typeIdx);
      var dataPtr := LoadArg(i);
      if typeAddr != 0 && typeAddr in recipes {
        AppendRecipe(mem, recipes[typeAddr], dataPtr);
      }
    }

    method AppendRecipe(mem: Memory, recipe: seq<KernelRelRule>, dataPtr: nat)
      requires Valid()
      requires |recipe| <= 4 && forall r <- recipe :: r.Valid()
      modifies this`argCount, args
      ensures Valid()
      ensures Leaves() == old(Leaves()) + Take(RecipeLeaves(mem, dataPtr, recipe), 8 - old(argCount))
    {
      hide FetchAt, Walk;
      ghost var before := Leaves();
      ghost var all := RecipeLeaves(mem, dataPtr, recipe);
      for j := 0 to |recipe|
        invariant Valid()
        invariant Leaves() == before + Take(all[..j], 8 - |before|)
      {
        if argCount >= 8 {
          assert Take(all[..j], 8 - |before|) == Take(all, 8 - |before|);
          break;
        }
        assert all[..j + 1] == all[..j] + [all[j]];
        var leaf := FetchFromMemory(mem, dataPtr, recipe[j].Steps(), recipe[j].size, true);
        args[argCount] := leaf;
        argCount := argCount + 1;
        assert args[..argCount] == args[..argCount - 1] + [leaf];
      }
      assert all[..|all|] == all;
    }
  }

  lemma EmptyWord()
    ensures ReadUint(EMPTY_ARG.data) == 0
  {
    ZerosAreZero(EMPTY_ARG.data[..8]);
  }

  lemma {:induction false} ZerosAreZero(b: Bytes)
    requires forall i | 0 <= i < |b| :: b[i] == 0
    ensures LittleEndian(b) == 0
  {
    if b != [] {
      ZerosAreZero(b[1..]);
    }
  }
}
