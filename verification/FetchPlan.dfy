/** Fetch rules: how one leaf is addressed, and the planner that compiles a type into them. */
module FetchRules {

  /** One addressing step applied to an address: add the offset, or load the word found there. */
  datatype Step = Step(offset: int, deref: bool)

  datatype ArgRule = RegRule(reg: string) | StackRule(step: Step)

  datatype FetchArg = FetchArg(
    name: string,
    size: nat,
    rules: seq<ArgRule>,
    nilCheck: bool,
    ifaceData: bool,
    typeIndex: nat)

  const MAX_FETCH_ARGS := 8
  const MAX_FETCH_ARG_RULES := 8
  const AUTO_STRING_SIZE := 64

  function StackRules(steps: seq<Step>): (rules: seq<ArgRule>)
    ensures |rules| == |steps|
    ensures forall i | 0 <= i < |steps| :: rules[i] == StackRule(steps[i])
  {
    seq(|steps|, i requires 0 <= i < |steps| => StackRule(steps[i]))
  }
}

module FetchPlan {
  import opened Wrappers
  import opened GoTypes
  import opened FetchRules

  /** The integer registers of Go's ABI, in assignment order. */
  const ABI_REGS: seq<string> := ["ax", "bx", "cx", "di", "si", "r8", "r9", "r10", "r11"]

  /** Register of the word at a position, "" once they run out. */
  function Reg(wi: nat): string
  {
    if wi < |ABI_REGS| then ABI_REGS[wi] else ""
  }

  function Advance(wi: nat, n: nat): nat
  {
    if wi + n <= |ABI_REGS| then wi + n else |ABI_REGS|
  }

  datatype ArgSpec =
    | WordSpec(name: string, size: nat, reg: string)  // the register itself
    | ItabSpec(name: string, reg: string)             // the type word behind an itab register
    | LocSpec(name: string, loc: MemLoc, size: nat)   // memory addressed from a register

  datatype MemLoc = MemLoc(reg: string, steps: seq<Step>, nilCheck: bool)
  {
    function Add(offset: int): MemLoc
    {
      if offset == 0 then this else this.(steps := steps + [Step(offset, false)])
    }

    function Deref(offset: int): MemLoc
    {
      this.(steps := steps + [Step(offset, true)])
    }
  }

  function BlobAt(name: string, loc: MemLoc): ArgSpec
  {
    LocSpec(name, loc, AUTO_STRING_SIZE)
  }

  function ToFetchArg(s: ArgSpec): FetchArg
  {
    match s
    case WordSpec(name, size, reg) =>
      FetchArg(name, size, [RegRule(reg)], false, false, 0)
    case ItabSpec(name, reg) =>
      FetchArg(name, 8, [RegRule(reg), StackRule(Step(8, false))], true, false, 0)
    case LocSpec(name, loc, size) =>
      var steps := if |loc.steps| == 0 then [Step(0, false)] else loc.steps;
      FetchArg(name, size, [RegRule(loc.reg)] + StackRules(steps), loc.nilCheck, false, 0)
  }

  /** One planned argument or return value. */
  datatype Value = Value(name: string, typ: GoType, wordCount: nat, captures: nat)
  {
    function LeafCount(): nat { wordCount + captures }
  }

  // ---- what a type needs ----

  /** `abiWordCount`: 0 when some part of the type is not supported. */
  function AbiWordCount(t: GoType): nat
    decreases t
  {
    match t
    case Named(b) => AbiWordCount(b)
    case Scalar(_, _) => 1
    case Ptr(_) => 1
    case Str => 2
    case Iface(_) => 2
    case Slice(_, _) => 3
    case Struct(_, fields, _) => FieldWordCount(fields)
    case Opaque(_) => 0
  }

  function FieldWordCount(fields: seq<Field>): nat
    decreases fields
  {
    if fields == [] then 0
    else if AbiWordCount(fields[0].typ) == 0 then 0
    else if |fields| == 1 then AbiWordCount(fields[0].typ)
    else if FieldWordCount(fields[1..]) == 0 then 0
    else AbiWordCount(fields[0].typ) + FieldWordCount(fields[1..])
  }

  /** `extraCaptures`: memory leaves beyond the ABI words. */
  function ExtraCaptures(t: GoType, inMemory: bool): nat
    decreases t
  {
    match t
    case Named(b) => ExtraCaptures(b, inMemory)
    case Str => 1
    case Slice(_, _) => 1
    case Iface(nonEmpty) => if !inMemory then 1 else if nonEmpty then 3 else 2
    case Struct(_, fields, _) => FieldExtraCaptures(fields, inMemory)
    case _ => 0
  }

  function FieldExtraCaptures(fields: seq<Field>, inMemory: bool): nat
    decreases fields
  {
    if fields == [] then 0
    else ExtraCaptures(fields[0].typ, inMemory) + FieldExtraCaptures(fields[1..], inMemory)
  }

  // ---- what the emitters append, as functions ----

  /** The register fetches of a value flattened to ABI words, the first of them in word `wi`. */
  function WordSpecs(t: GoType, name: string, wi: nat): seq<ArgSpec>
    decreases t
  {
    match t
    case Named(b) => WordSpecs(b, name, wi)
    case Scalar(_, size) => [WordSpec(name, size, Reg(wi))]
    case Ptr(_) => [WordSpec(name, 8, Reg(wi))]
    case Opaque(_) => [WordSpec(name, 8, Reg(wi))]
    case Str =>
      [WordSpec(name + ".data", 8, Reg(wi)), WordSpec(name + ".len", 8, Reg(Advance(wi, 1)))]
    case Slice(_, _) =>
      [WordSpec(name + ".data", 8, Reg(wi)), WordSpec(name + ".len", 8, Reg(Advance(wi, 1))),
       WordSpec(name + ".cap", 8, Reg(Advance(wi, 2)))]
    case Iface(nonEmpty) =>
      [TypeWordSpec(name, nonEmpty, Reg(wi)), WordSpec(name + ".data", 8, Reg(Advance(wi, 1)))]
    case Struct(_, fields, _) => FieldWordSpecs(fields, name, wi)
  }

  function TypeWordSpec(name: string, nonEmpty: bool, reg: string): ArgSpec
  {
    if nonEmpty then ItabSpec(name + ".type", reg) else WordSpec(name + ".type", 8, reg)
  }

  function FieldWordSpecs(fields: seq<Field>, name: string, wi: nat): seq<ArgSpec>
    decreases fields
  {
    if fields == [] then []
    else
      var first := WordSpecs(fields[0].typ, name + "." + fields[0].name, wi);
      first + FieldWordSpecs(fields[1..], name, Advance(wi, |first|))
  }

  /** The blobs behind the pointers of a register-held value, in field order. */
  function RegBlobs(t: GoType, name: string, wi: nat): seq<ArgSpec>
    decreases t
  {
    match t
    case Named(b) => RegBlobs(b, name, wi)
    case Str => [BlobAt(name + ".str", MemLoc(Reg(wi), [], false))]
    case Slice(_, _) => [BlobAt(name + ".arr", MemLoc(Reg(wi), [], true))]
    case Iface(_) => [BlobAt(name + ".value", MemLoc(Reg(Advance(wi, 1)), [], true))]
    case Struct(_, fields, _) => FieldRegBlobs(fields, name, wi)
    case _ => []
  }

  function FieldRegBlobs(fields: seq<Field>, name: string, wi: nat): seq<ArgSpec>
    decreases fields
  {
    if fields == [] then []
    else
      var fieldName := name + "." + fields[0].name;
      RegBlobs(fields[0].typ, fieldName, wi)
      + FieldRegBlobs(fields[1..], name, Advance(wi, |WordSpecs(fields[0].typ, fieldName, wi)|))
  }

  /** The memory leaves of a value that lives at a location. */
  function MemSpecs(t: GoType, name: string, loc: MemLoc): seq<ArgSpec>
    decreases t
  {
    match t
    case Named(b) => MemSpecs(b, name, loc)
    case Str => [BlobAt(name + ".str", loc.Deref(0))]
    case Slice(_, _) => [BlobAt(name + ".arr", loc.Deref(0))]
    case Iface(nonEmpty) =>
      (if nonEmpty then [LocSpec(name + ".type", loc.Deref(0).Add(8), 8)] else [])
      + [LocSpec(name + ".data", loc.Add(8), 8), BlobAt(name + ".value", loc.Deref(8))]
    case Struct(_, fields, _) => FieldMemSpecs(fields, name, loc)
    case _ => []
  }

  function FieldMemSpecs(fields: seq<Field>, name: string, loc: MemLoc): seq<ArgSpec>
    decreases fields
  {
    if fields == [] then []
    else
      MemSpecs(fields[0].typ, name + "." + fields[0].name, loc.Add(fields[0].offset))
      + FieldMemSpecs(fields[1..], name, loc)
  }

  /** Everything one variable contributes, when it fits. */
  function ValueSpecs(env: TypeEnv, t: GoType, name: string, wi: nat): seq<ArgSpec>
  {
    match Underlying(t)
    case Ptr(id) =>
      var word := [WordSpec(name, 8, Reg(wi))];
      if !IsCapturedStruct(env(id)) then word
      else
        var loc := MemLoc(Reg(wi), [], true);
        word + [BlobAt(name + ".obj", loc)] + MemSpecs(env(id), name, loc)
    case u => WordSpecs(u, name, wi) + RegBlobs(u, name, wi)
  }

  function ValueWords(t: GoType): nat
  {
    AbiWordCount(t)
  }

  function ValueCaptures(env: TypeEnv, t: GoType): nat
  {
    match Underlying(t)
    case Ptr(id) => if IsCapturedStruct(env(id)) then 1 + ExtraCaptures(env(id), true) else 0
    case u => ExtraCaptures(u, false)
  }

  function PlannedValue(env: TypeEnv, t: GoType, name: string): Value
  {
    Value(name, t, ValueWords(t), ValueCaptures(env, t))
  }

  /** The planner takes a variable iff its type is supported and its leaves fit. */
  predicate Plannable(env: TypeEnv, t: GoType, used: nat)
  {
    AbiWordCount(t) > 0 && used + PlannedValue(env, t, "").LeafCount() <= MAX_FETCH_ARGS
  }

  datatype Variable = Variable(name: string, typ: GoType)

  /** What a whole variable list compiles to from the given word and leaf positions. */
  function PlanList(env: TypeEnv, vars: seq<Variable>, wi: nat, used: nat)
    : (r: (seq<ArgSpec>, seq<Value>))
    decreases vars
  {
    if vars == [] || used >= MAX_FETCH_ARGS then ([], [])
    else
      var v := vars[0];
      if !Plannable(env, v.typ, used) then PlanList(env, vars[1..], wi, used)
      else
        var value := PlannedValue(env, v.typ, v.name);
        var rest := PlanList(env, vars[1..], wi + value.wordCount, used + value.LeafCount());
        (ValueSpecs(env, v.typ, v.name, wi) + rest.0, [value] + rest.1)
  }

  // ---- counts: emitters append exactly what the planner reserved ----

  lemma {:induction false} WordSpecsCount(t: GoType, name: string, wi: nat)
    ensures AbiWordCount(t) > 0 ==> |WordSpecs(t, name, wi)| == AbiWordCount(t)
    decreases t
  {
    match t
    case Named(b) => WordSpecsCount(b, name, wi);
    case Struct(_, fields, _) => FieldWordSpecsCount(fields, name, wi);
    case _ =>
  }

  lemma {:induction false} FieldWordSpecsCount(fields: seq<Field>, name: string, wi: nat)
    ensures FieldWordCount(fields) > 0 ==> |FieldWordSpecs(fields, name, wi)| == FieldWordCount(fields)
    decreases fields
  {
    if fields != [] {
      var fieldName := name + "." + fields[0].name;
      WordSpecsCount(fields[0].typ, fieldName, wi);
      var wi' := Advance(wi, |WordSpecs(fields[0].typ, fieldName, wi)|);
      FieldWordSpecsCount(fields[1..], name, wi');
      if |fields| == 1 {
        assert FieldWordSpecs(fields[1..], name, wi') == [];
      }
    }
  }

  lemma {:induction false} RegBlobsCount(t: GoType, name: string, wi: nat)
    ensures |RegBlobs(t, name, wi)| == ExtraCaptures(t, false)
    decreases t
  {
    match t
    case Named(b) => RegBlobsCount(b, name, wi);
    case Struct(_, fields, _) => FieldRegBlobsCount(fields, name, wi);
    case _ =>
  }

  lemma {:induction false} FieldRegBlobsCount(fields: seq<Field>, name: string, wi: nat)
    ensures |FieldRegBlobs(fields, name, wi)| == FieldExtraCaptures(fields, false)
    decreases fields
  {
    if fields != [] {
      var fieldName := name + "." + fields[0].name;
      RegBlobsCount(fields[0].typ, fieldName, wi);
      FieldRegBlobsCount(fields[1..], name, Advance(wi, |WordSpecs(fields[0].typ, fieldName, wi)|));
    }
  }

  lemma {:induction false} MemSpecsCount(t: GoType, name: string, loc: MemLoc)
    ensures |MemSpecs(t, name, loc)| == ExtraCaptures(t, true)
    decreases t
  {
    match t
    case Named(b) => MemSpecsCount(b, name, loc);
    case Struct(_, fields, _) => FieldMemSpecsCount(fields, name, loc);
    case _ =>
  }

  lemma {:induction false} FieldMemSpecsCount(fields: seq<Field>, name: string, loc: MemLoc)
    ensures |FieldMemSpecs(fields, name, loc)| == FieldExtraCaptures(fields, true)
    decreases fields
  {
    if fields != [] {
      MemSpecsCount(fields[0].typ, name + "." + fields[0].name, loc.Add(fields[0].offset));
      FieldMemSpecsCount(fields[1..], name, loc);
    }
  }

  lemma {:induction false} UnderlyingFacts(t: GoType)
    ensures AbiWordCount(Underlying(t)) == AbiWordCount(t)
    ensures Size(Underlying(t)) == Size(t)
    ensures forall m :: ExtraCaptures(Underlying(t), m) == ExtraCaptures(t, m)
    ensures HasPtr(Underlying(t)) == HasPtr(t)
    ensures WellFormed(Underlying(t)) == WellFormed(t)
  {
    if t.Named? { UnderlyingFacts(t.base); }
  }

  lemma ValueSpecsCount(env: TypeEnv, t: GoType, name: string, wi: nat)
    requires AbiWordCount(t) > 0
    ensures |ValueSpecs(env, t, name, wi)| == PlannedValue(env, t, name).LeafCount()
  {
    UnderlyingFacts(t);
    match Underlying(t)
    case Ptr(id) => MemSpecsCount(env(id), name, MemLoc(Reg(wi), [], true));
    case u =>
      WordSpecsCount(u, name, wi);
      RegBlobsCount(u, name, wi);
  }

  function LeafTotal(values: seq<Value>): nat
  {
    if values == [] then 0 else values[0].LeafCount() + LeafTotal(values[1..])
  }

  /** The plan never splits a value: leaves and fetches agree in number and fit the event. */
  lemma {:induction false} PlanIsWhole(env: TypeEnv, vars: seq<Variable>, wi: nat, used: nat)
    requires used <= MAX_FETCH_ARGS
    ensures var (specs, values) := PlanList(env, vars, wi, used);
            |specs| == LeafTotal(values) && used + |specs| <= MAX_FETCH_ARGS
    decreases vars
  {
    if vars != [] && used < MAX_FETCH_ARGS {
      var v := vars[0];
      if Plannable(env, v.typ, used) {
        var value := PlannedValue(env, v.typ, v.name);
        ValueSpecsCount(env, v.typ, v.name, wi);
        PlanIsWhole(env, vars[1..], wi + value.wordCount, used + value.LeafCount());
        var rest := PlanList(env, vars[1..], wi + value.wordCount, used + value.LeafCount());
        assert ([value] + rest.1)[1..] == rest.1;
      } else {
        PlanIsWhole(env, vars[1..], wi, used);
      }
    }
  }

  // ---- the planner itself ----

  datatype CaptureJob = CaptureJob(name: string, typ: GoType, loc: MemLoc)

  class FlatCtx {
    var wi: nat
    var out: seq<ArgSpec>
    var broken: bool

    constructor ()
      ensures wi == 0 && out == [] && !broken
    {
      wi, out, broken := 0, [], false;
    }

    predicate Full()
      reads this
    {
      |out| >= MAX_FETCH_ARGS
    }

    method Reserve(n: nat) returns (ok: bool)
      modifies this`broken
      ensures ok == (|out| + n <= MAX_FETCH_ARGS)
      ensures broken == (old(broken) || !ok)
    {
      if |out| + n <= MAX_FETCH_ARGS {
        return true;
      }
      broken := true;
      return false;
    }

    method NextWord() returns (r: string)
      requires wi <= |ABI_REGS|
      modifies this`wi, this`broken
      ensures r == Reg(old(wi)) && wi == Advance(old(wi), 1)
      ensures broken == (old(broken) || old(wi) == |ABI_REGS|)
    {
      if wi >= |ABI_REGS| {
        broken := true;
        return "";
      }
      r := ABI_REGS[wi];
      wi := wi + 1;
    }

    method EmitABI(t: GoType, name: string) returns (jobs: seq<CaptureJob>)
      requires wi <= |ABI_REGS|
      modifies this
      ensures out == old(out) + WordSpecs(t, name, old(wi))
      ensures wi == Advance(old(wi), |WordSpecs(t, name, old(wi))|)
      ensures broken == (old(broken) || old(wi) + |WordSpecs(t, name, old(wi))| > |ABI_REGS|)
      ensures JobBlobs(jobs) == RegBlobs(t, name, old(wi))
      decreases t
    {
      match t
      case Named(b) =>
        jobs := EmitABI(b, name);
      case Str =>
        var data := NextWord();
        var ln := NextWord();
        out := out + [WordSpec(name + ".data", 8, data), WordSpec(name + ".len", 8, ln)];
        jobs := [CaptureJob(name + ".str", t, MemLoc(data, [], false))];
      case Slice(_, _) =>
        var data := NextWord();
        var ln := NextWord();
        var cap := NextWord();
        out := out + [WordSpec(name + ".data", 8, data), WordSpec(name + ".len", 8, ln),
                      WordSpec(name + ".cap", 8, cap)];
        jobs := [CaptureJob(name + ".arr", t, MemLoc(data, [], true))];
      case Iface(nonEmpty) =>
        var typeReg := NextWord();
        var dataReg := NextWord();
        out := out + [TypeWordSpec(name, nonEmpty, typeReg), WordSpec(name + ".data", 8, dataReg)];
        jobs := [CaptureJob(name, t, MemLoc(dataReg, [], true))];
      case Struct(_, fields, _) =>
        jobs := EmitFields(t, fields, name);
      case Ptr(_) =>
        var reg := NextWord();
        out := out + [WordSpec(name, 8, reg)];
        jobs := [];
      case Opaque(_) =>
        var reg := NextWord();
        out := out + [WordSpec(name, 8, reg)];
        jobs := [];
      case Scalar(_, size) =>
        var reg := NextWord();
        out := out + [WordSpec(name, size, reg)];
        jobs := [];
    }

    /** The struct case of `emitABI`: its loop over the fields. */
    method EmitFields(ghost t: GoType, fields: seq<Field>, name: string) returns (jobs: seq<CaptureJob>)
      requires wi <= |ABI_REGS|
      requires t.Struct? && t.fields == fields
      modifies this
      ensures out == old(out) + FieldWordSpecs(fields, name, old(wi))
      ensures wi == Advance(old(wi), |FieldWordSpecs(fields, name, old(wi))|)
      ensures broken == (old(broken) || old(wi) + |FieldWordSpecs(fields, name, old(wi))| > |ABI_REGS|)
      ensures JobBlobs(jobs) == FieldRegBlobs(fields, name, old(wi))
      decreases t, 0
    {
      hide WordSpecs, RegBlobs, JobBlobs;
      jobs := [];
      NoJobs();
      ghost var specs, blobs := FieldWordSpecs(fields, name, wi), FieldRegBlobs(fields, name, wi);
      ghost var done: seq<ArgSpec> := [];
      for i := 0 to |fields|
        invariant wi == Advance(old(wi), |done|)
        invariant out == old(out) + done && specs == done + FieldWordSpecs(fields[i..], name, wi)
        invariant broken == (old(broken) || old(wi) + |done| > |ABI_REGS|)
        invariant blobs == JobBlobs(jobs) + FieldRegBlobs(fields[i..], name, wi)
      {
        var fieldName := name + "." + fields[i].name;
        ghost var first := WordSpecs(fields[i].typ, fieldName, wi);
        ghost var wi' := Advance(wi, |first|);
        assert fields[i..][0] == fields[i] && fields[i..][1..] == fields[i + 1..];
        assert specs == (done + first) + FieldWordSpecs(fields[i + 1..], name, wi');
        assert blobs == (JobBlobs(jobs) + RegBlobs(fields[i].typ, fieldName, wi)) + FieldRegBlobs(fields[i + 1..], name, wi');
        var more := EmitABI(fields[i].typ, fieldName);
        JobBlobsAppend(jobs, more);
        jobs := jobs + more;
        done := done + first;
      }
      assert fields[|fields|..] == [];
    }

    method EmitRegCaptures(job: CaptureJob)
      modifies this`out
      ensures out == old(out) + JobBlob(job)
    {
      match Underlying(job.typ)
      case Str => out := out + [BlobAt(job.name, job.loc)];
      case Slice(_, _) => out := out + [BlobAt(job.name, job.loc)];
      case Iface(_) => out := out + [BlobAt(job.name + ".value", job.loc)];
      case _ =>
    }

    method EmitJobs(jobs: seq<CaptureJob>)
      modifies this`out
      ensures out == old(out) + JobBlobs(jobs)
    {
      hide JobBlob;
      for i := 0 to |jobs|
        invariant out + JobBlobs(jobs[i..]) == old(out) + JobBlobs(jobs)
      {
        assert jobs[i..][1..] == jobs[i + 1..];
        assert out + JobBlobs(jobs[i..]) == (out + JobBlob(jobs[i])) + JobBlobs(jobs[i + 1..]);
        EmitRegCaptures(jobs[i]);
      }
      assert jobs[|jobs|..] == [];
    }

    method EmitMemCaptures(t: GoType, name: string, loc: MemLoc)
      modifies this`out
      ensures out == old(out) + MemSpecs(t, name, loc)
      decreases t
    {
      match t
      case Named(b) =>
        EmitMemCaptures(b, name, loc);
      case Str =>
        out := out + [BlobAt(name + ".str", loc.Deref(0))];
      case Slice(_, _) =>
        out := out + [BlobAt(name + ".arr", loc.Deref(0))];
      case Iface(nonEmpty) =>
        if nonEmpty {
          out := out + [LocSpec(name + ".type", loc.Deref(0).Add(8), 8)];
        }
        out := out + [LocSpec(name + ".data", loc.Add(8), 8)];
        out := out + [BlobAt(name + ".value", loc.Deref(8))];
      case Struct(_, fields, _) =>
        ghost var all := FieldMemSpecs(fields, name, loc);
        for i := 0 to |fields|
          invariant out + FieldMemSpecs(fields[i..], name, loc) == old(out) + all
        {
          assert fields[i..][1..] == fields[i + 1..];
          EmitMemCaptures(fields[i].typ, name + "." + fields[i].name, loc.Add(fields[i].offset));
        }
        assert fields[|fields|..] == [];
      case _ =>
    }

    /** `planValue`: all of the variable's leaves or none of them. The repository also gives up
     *  when `nextWord` runs out of registers; `wi <= |out|` rules that out. */
    method PlanValue(env: TypeEnv, t: GoType, name: string) returns (v: Option<Value>)
      requires !Full() && wi <= |out|
      modifies this
      ensures v.Some? == Plannable(env, t, old(|out|))
      ensures Planned(env, t, name, v, old(wi), wi, old(out), out)
      ensures v.Some? ==> wi <= |out| <= MAX_FETCH_ARGS && broken == old(broken)
    {
      UnderlyingFacts(t);
      match Underlying(t)
      case Ptr(id) =>
        v := PlanPointer(env, id, t, name);
      case Struct(_, _, _) =>
        v := PlanStruct(env, Underlying(t), t, name);
      case Str =>
        v := PlanString(env, t, name);
      case Slice(_, _) =>
        v := PlanSlice(env, t, name);
      case Iface(nonEmpty) =>
        v := PlanInterface(env, nonEmpty, t, name);
      case Scalar(_, size) =>
        var reg := NextWord();
        out := out + [WordSpec(name, size, reg)];
        return Some(Value(name, t, 1, 0));
      case Opaque(_) =>
        return None;
    }

    method PlanString(env: TypeEnv, t: GoType, name: string) returns (v: Option<Value>)
      requires !Full() && wi <= |out|
      requires Underlying(t) == Str && AbiWordCount(t) == 2
      modifies this
      ensures v.Some? == Plannable(env, t, old(|out|))
      ensures Planned(env, t, name, v, old(wi), wi, old(out), out)
      ensures v.Some? ==> wi <= |out| <= MAX_FETCH_ARGS && broken == old(broken)
    {
      var ok := Reserve(3);
      if !ok {
        return None;
      }
      var data := NextWord();
      var ln := NextWord();
      out := out + [WordSpec(name + ".data", 8, data)];
      out := out + [WordSpec(name + ".len", 8, ln)];
      out := out + [BlobAt(name + ".str", MemLoc(data, [], false))];
      return Some(Value(name, t, 2, 1));
    }

    method PlanSlice(env: TypeEnv, t: GoType, name: string) returns (v: Option<Value>)
      requires !Full() && wi <= |out|
      requires Underlying(t).Slice? && AbiWordCount(t) == 3
      modifies this
      ensures v.Some? == Plannable(env, t, old(|out|))
      ensures Planned(env, t, name, v, old(wi), wi, old(out), out)
      ensures v.Some? ==> wi <= |out| <= MAX_FETCH_ARGS && broken == old(broken)
    {
      var ok := Reserve(4);
      if !ok {
        return None;
      }
      var data := NextWord();
      var ln := NextWord();
      var cap := NextWord();
      out := out + [WordSpec(name + ".data", 8, data)];
      out := out + [WordSpec(name + ".len", 8, ln)];
      out := out + [WordSpec(name + ".cap", 8, cap)];
      out := out + [BlobAt(name + ".arr", MemLoc(data, [], true))];
      assert out == old(out) + ValueSpecs(env, t, name, old(wi));
      return Some(Value(name, t, 3, 1));
    }

    method PlanInterface(env: TypeEnv, nonEmpty: bool, t: GoType, name: string) returns (v: Option<Value>)
      requires !Full() && wi <= |out|
      requires Underlying(t) == Iface(nonEmpty) && AbiWordCount(t) == 2
      modifies this
      ensures v.Some? == Plannable(env, t, old(|out|))
      ensures Planned(env, t, name, v, old(wi), wi, old(out), out)
      ensures v.Some? ==> wi <= |out| <= MAX_FETCH_ARGS && broken == old(broken)
    {
      var ok := Reserve(3);
      if !ok {
        return None;
      }
      var typeReg := NextWord();
      var dataReg := NextWord();
      out := out + [TypeWordSpec(name, nonEmpty, typeReg)];
      out := out + [WordSpec(name + ".data", 8, dataReg)];
      out := out + [BlobAt(name + ".value", MemLoc(dataReg, [], true))];
      return Some(Value(name, t, 2, 1));
    }

    method PlanPointer(env: TypeEnv, id: TypeId, t: GoType, name: string) returns (v: Option<Value>)
      requires !Full() && wi <= |out|
      requires Underlying(t) == Ptr(id) && AbiWordCount(t) == 1
      modifies this
      ensures v.Some? == Plannable(env, t, old(|out|))
      ensures Planned(env, t, name, v, old(wi), wi, old(out), out)
      ensures v.Some? ==> wi <= |out| <= MAX_FETCH_ARGS && broken == old(broken)
    {
      hide MemSpecs, ExtraCaptures, IsCapturedStruct;
      if IsCapturedStruct(env(id)) {
        var extras := ExtraCaptures(env(id), true);
        var ok := Reserve(2 + extras);
        if !ok {
          return None;
        }
        var reg := NextWord();
        var loc := MemLoc(reg, [], true);
        MemSpecsCount(env(id), name, loc);
        out := out + [WordSpec(name, 8, reg)];
        out := out + [BlobAt(name + ".obj", loc)];
        EmitMemCaptures(env(id), name, loc);
        return Some(Value(name, t, 1, 1 + extras));
      }
      var reg := NextWord();
      out := out + [WordSpec(name, 8, reg)];
      return Some(Value(name, t, 1, 0));
    }

    method PlanStruct(env: TypeEnv, st: GoType, t: GoType, name: string) returns (v: Option<Value>)
      requires !Full() && wi <= |out|
      requires st == Underlying(t) && st.Struct? && AbiWordCount(t) == AbiWordCount(st)
      modifies this
      ensures v.Some? == Plannable(env, t, old(|out|))
      ensures Planned(env, t, name, v, old(wi), wi, old(out), out)
      ensures v.Some? ==> wi <= |out| <= MAX_FETCH_ARGS && broken == old(broken)
    {
      var n := AbiWordCount(st);
      var extras := ExtraCaptures(st, false);
      if n == 0 {
        return None;
      }
      var ok := Reserve(n + extras);
      if !ok {
        return None;
      }
      WordSpecsCount(st, name, wi);
      RegBlobsCount(st, name, wi);
      var jobs := EmitABI(st, name);
      EmitJobs(jobs);
      return Some(Value(name, t, n, extras));
    }
  }

  /** What one `planValue` call leaves behind. */
  ghost predicate Planned(env: TypeEnv, t: GoType, name: string, v: Option<Value>,
                          wi: nat, wi': nat, out: seq<ArgSpec>, out': seq<ArgSpec>)
  {
    match v
    case None => out' == out && wi' == wi
    case Some(value) =>
      && value == PlannedValue(env, t, name)
      && out' == out + ValueSpecs(env, t, name, wi)
      && wi' == wi + ValueWords(t)
  }

  function JobBlob(job: CaptureJob): seq<ArgSpec>
  {
    match Underlying(job.typ)
    case Str => [BlobAt(job.name, job.loc)]
    case Slice(_, _) => [BlobAt(job.name, job.loc)]
    case Iface(_) => [BlobAt(job.name + ".value", job.loc)]
    case _ => []
  }

  function JobBlobs(jobs: seq<CaptureJob>): seq<ArgSpec>
  {
    if jobs == [] then [] else JobBlob(jobs[0]) + JobBlobs(jobs[1..])
  }

  lemma NoJobs()
    ensures JobBlobs([]) == []
  {
  }

  lemma {:induction false} JobBlobsAppend(a: seq<CaptureJob>, b: seq<CaptureJob>)
    ensures JobBlobs(a + b) == JobBlobs(a) + JobBlobs(b)
  {
    if a == [] {
      assert a + b == b;
    } else {
      assert (a + b)[0] == a[0] && (a + b)[1..] == a[1..] + b;
      JobBlobsAppend(a[1..], b);
    }
  }

  function ToFetchArgs(specs: seq<ArgSpec>): (args: seq<FetchArg>)
    ensures |args| == |specs|
    ensures forall i | 0 <= i < |specs| :: args[i] == ToFetchArg(specs[i])
  {
    seq(|specs|, i requires 0 <= i < |specs| => ToFetchArg(specs[i]))
  }

  /** `deriveArgs` up to `markIfaceSlots`. */
  method DeriveArgs(env: TypeEnv, vars: seq<Variable>) returns (args: seq<FetchArg>, values: seq<Value>)
    ensures var (specs, planned) := PlanList(env, vars, 0, 0);
            args == ToFetchArgs(specs) && values == planned
    ensures |args| == LeafTotal(values) <= MAX_FETCH_ARGS
  {
    hide ValueSpecs, AbiWordCount, ValueCaptures;
    var ctx := new FlatCtx();
    values := [];
    ghost var todo := PlanList(env, vars, 0, 0);
    var i := 0;
    while i < |vars|
      invariant 0 <= i <= |vars|
      invariant ctx.wi <= |ctx.out| <= MAX_FETCH_ARGS && fresh(ctx)
      invariant todo == PlanList(env, vars[i..], ctx.wi, |ctx.out|)
      invariant ctx.out + todo.0 == PlanList(env, vars, 0, 0).0
      invariant values + todo.1 == PlanList(env, vars, 0, 0).1
    {
      if ctx.Full() {
        break;
      }
      PlanListStep(env, vars, i, ctx.wi, |ctx.out|);
      var node := ctx.PlanValue(env, vars[i].typ, vars[i].name);
      if node.Some? {
        values := values + [node.value];
      }
      i := i + 1;
      todo := PlanList(env, vars[i..], ctx.wi, |ctx.out|);
    }
    assert todo == ([], []);
    args := ToFetchArgs(ctx.out);
    PlanIsWhole(env, vars, 0, 0);
  }

  lemma PlanListStep(env: TypeEnv, vars: seq<Variable>, i: nat, wi: nat, used: nat)
    requires i < |vars| && used < MAX_FETCH_ARGS
    ensures var v := vars[i];
            var value := PlannedValue(env, v.typ, v.name);
            var specs := ValueSpecs(env, v.typ, v.name, wi);
            if !Plannable(env, v.typ, used) then
              PlanList(env, vars[i..], wi, used) == PlanList(env, vars[i + 1..], wi, used)
            else
              var rest := PlanList(env, vars[i + 1..], wi + value.wordCount, used + value.LeafCount());
              && |specs| == value.LeafCount()
              && PlanList(env, vars[i..], wi, used) == (specs + rest.0, [value] + rest.1)
  {
    var v := vars[i];
    assert vars[i..][0] == v && vars[i..][1..] == vars[i + 1..];
    if AbiWordCount(v.typ) > 0 {
      ValueSpecsCount(env, v.typ, v.name, wi);
    }
  }

  // ---- pairing type and data words (`markIfaceSlots`) ----

  predicate HasSuffix(s: string, suffix: string)
  {
    |suffix| <= |s| && s[|s| - |suffix|..] == suffix
  }

  function TrimSuffix(s: string, suffix: string): string
  {
    if HasSuffix(s, suffix) then s[..|s| - |suffix|] else s
  }

  /** The slot `typeIdx[prefix]` holds in the end: the last one named prefix + ".type". */
  function TypeSlot(args: seq<FetchArg>, prefix: string): Option<nat>
  {
    if args == [] then None
    else
      var last := |args| - 1;
      if args[last].name == prefix + ".type" then Some(last) else TypeSlot(args[..last], prefix)
  }

  function Marked(args: seq<FetchArg>, i: nat): FetchArg
    requires i < |args|
  {
    var a := args[i];
    if !HasSuffix(a.name, ".data") then a
    else
      match TypeSlot(args, TrimSuffix(a.name, ".data"))
      case None => a
      case Some(slot) => a.(ifaceData := true, typeIndex := slot)
  }

  lemma SuffixName(s: string, prefix: string, suffix: string)
    ensures HasSuffix(s, suffix) && TrimSuffix(s, suffix) == prefix <==> s == prefix + suffix
  {
    if HasSuffix(s, suffix) {
      assert s == s[..|s| - |suffix|] + suffix;
    }
    if s == prefix + suffix {
      assert s[|s| - |suffix|..] == suffix;
    }
  }

  method MarkIfaceSlots(args: seq<FetchArg>) returns (r: seq<FetchArg>)
    ensures |r| == |args| && forall i | 0 <= i < |args| :: r[i] == Marked(args, i)
  {
    var typeIdx: map<string, nat> := map[];
    for i := 0 to |args|
      invariant forall p :: p in typeIdx <==> TypeSlot(args[..i], p).Some?
      invariant forall p <- typeIdx :: TypeSlot(args[..i], p) == Some(typeIdx[p])
    {
      ghost var before := args[..i];
      assert args[..i + 1][..i] == before;
      forall p
        ensures TypeSlot(args[..i + 1], p)
             == if HasSuffix(args[i].name, ".type") && TrimSuffix(args[i].name, ".type") == p then Some(i)
                else TypeSlot(before, p)
      {
        SuffixName(args[i].name, p, ".type");
      }
      if HasSuffix(args[i].name, ".type") {
        typeIdx := typeIdx[TrimSuffix(args[i].name, ".type") := i];
      }
    }
    assert args[..|args|] == args;
    r := args;
    for i := 0 to |args|
      invariant |r| == |args|
      invariant forall m | 0 <= m < i :: r[m] == Marked(args, m)
      invariant forall m | i <= m < |args| :: r[m] == args[m]
    {
      if HasSuffix(args[i].name, ".data") {
        var prefix := TrimSuffix(args[i].name, ".data");
        if prefix in typeIdx {
          r := r[i := args[i].(ifaceData := true, typeIndex := typeIdx[prefix])];
        }
      }
    }
  }
}
