/** Recipe leaves: which slots the probe marks, what it appends for them, and which of the appended
 *  leaves the decoder takes for each variable of a list. */
module RecipeTheorem {
  import opened Wrappers
  import opened Words
  import opened GoTypes
  import opened FetchRules
  import opened FetchPlan
  import opened TargetMemory
  import KernelFetch
  import opened Scatter
  import opened Snapshot
  import opened Render
  import opened LiveView
  import opened TypeRecipe
  import opened AutoFetch
  import opened Faithfulness
  import opened AutoFetchTheorem
  import opened Recipes

  // ---- types ----

  predicate HasIface(t: GoType)
  {
    match t
    case Named(b) => HasIface(b)
    case Iface(_) => true
    case Struct(_, fields, _) => exists f <- fields :: HasIface(f.typ)
    case _ => false
  }

  /** An interface without methods has both of its words among the first `n` bytes. */
  predicate EmptyWithin(t: GoType, n: nat)
    decreases t
  {
    match t
    case Named(b) => EmptyWithin(b, n)
    case Iface(nonEmpty) => !nonEmpty && n >= 8
    case Struct(_, fields, _) => exists f <- fields :: EmptyWithin(f.typ, Behind(n, f.offset))
    case _ => false
  }

  /** How many of `n` bytes are left from `offset` on. */
  function Behind(n: nat, offset: int): nat
  {
    if 0 <= offset < n then n - offset else 0
  }

  /** The probe marks nothing of the variable and the decoder looks for no recipe of it. */
  predicate Settled(env: TypeEnv, t: GoType)
  {
    match Underlying(t)
    case Iface(_) => false
    case Struct(_, _, _) => !HasIface(Underlying(t))
    case Ptr(id) => IsCapturedStruct(env(id)) ==> NoItabs(env(id)) && !EmptyWithin(env(id), AUTO_STRING_SIZE)
    case _ => true
  }

  /** A kind whose recipe leaves both sides count alike. */
  predicate Orderly(env: TypeEnv, t: GoType)
  {
    Underlying(t).Iface? || Settled(env, t)
  }

  // ---- names: which slot belongs to which variable ----

  predicate DotFree(s: string)
  {
    '.' !in s
  }

  /** What stands before the first dot. */
  function Stem(s: string): string
  {
    if s == [] || s[0] == '.' then [] else [s[0]] + Stem(s[1..])
  }

  lemma {:induction false} StemOf(name: string, tail: string)
    requires DotFree(name) && (tail == [] || tail[0] == '.')
    ensures Stem(name + tail) == name
  {
    if name == [] {
      assert name + tail == tail;
    } else {
      assert (name + tail)[0] == name[0] && (name + tail)[1..] == name[1..] + tail;
      StemOf(name[1..], tail);
    }
  }

  /** The name itself, or the name, a dot and more. */
  predicate Under(s: string, name: string)
  {
    name <= s && (|s| == |name| || s[|name|] == '.')
  }

  lemma StemUnder(s: string, name: string)
    requires DotFree(name) && Under(s, name)
    ensures Stem(s) == name
  {
    assert s == name + s[|name|..];
    StemOf(name, s[|name|..]);
  }

  lemma UnderField(s: string, name: string, field: string)
    requires Under(s, name + "." + field)
    ensures Under(s, name)
  {
    var prefix := name + "." + field;
    assert prefix[|name|] == '.' && prefix[..|name|] == name;
    assert s[..|prefix|] == prefix && s[|name|] == prefix[|name|];
    assert s[..|name|] == prefix[..|name|];
  }

  /** Two suffixes after the same prefix have the same stem. */
  lemma {:induction false} SameStem(prefix: string, a: string, b: string)
    requires a != [] && a[0] == '.' && b != [] && b[0] == '.'
    ensures Stem(prefix + a) == Stem(prefix + b)
  {
    if prefix == [] {
      assert prefix + a == a && prefix + b == b;
    } else {
      assert (prefix + a)[0] == prefix[0] == (prefix + b)[0];
      assert (prefix + a)[1..] == prefix[1..] + a && (prefix + b)[1..] == prefix[1..] + b;
      SameStem(prefix[1..], a, b);
    }
  }

  predicate AllUnder(specs: seq<ArgSpec>, name: string)
  {
    forall s <- specs :: Under(s.name, name)
  }

  lemma UnderSuffix(name: string, suffix: string)
    requires suffix != [] && suffix[0] == '.'
    ensures Under(name + suffix, name)
  {
  }

  lemma LeafNames(name: string)
    ensures Under(name, name) && Under(name + ".data", name) && Under(name + ".len", name) && Under(name + ".cap", name)
    ensures Under(name + ".str", name) && Under(name + ".arr", name) && Under(name + ".type", name)
    ensures Under(name + ".value", name) && Under(name + ".obj", name)
  {
    UnderSuffix(name, ".data");
    UnderSuffix(name, ".len");
    UnderSuffix(name, ".cap");
    UnderSuffix(name, ".str");
    UnderSuffix(name, ".arr");
    UnderSuffix(name, ".type");
    UnderSuffix(name, ".value");
    UnderSuffix(name, ".obj");
  }

  lemma UnderJoin(a: seq<ArgSpec>, b: seq<ArgSpec>, name: string, field: string)
    requires AllUnder(a, name + "." + field) && AllUnder(b, name)
    ensures AllUnder(a + b, name)
  {
    forall s | s in a
      ensures Under(s.name, name)
    {
      UnderField(s.name, name, field);
    }
  }

  lemma {:induction false} WordsUnder(t: GoType, name: string, wi: nat)
    ensures AllUnder(WordSpecs(t, name, wi), name) && AllUnder(RegBlobs(t, name, wi), name)
    decreases t
  {
    hide Under;
    match t
    case Named(b) => WordsUnder(b, name, wi);
    case Struct(_, fields, _) => FieldWordsUnder(fields, name, wi);
    case _ => LeafNames(name);
  }

  lemma {:induction false} FieldWordsUnder(fields: seq<Field>, name: string, wi: nat)
    ensures AllUnder(FieldWordSpecs(fields, name, wi), name) && AllUnder(FieldRegBlobs(fields, name, wi), name)
    decreases fields
  {
    hide Under, WordSpecs, RegBlobs;
    if fields != [] {
      var f := fields[0];
      var fieldName := name + "." + f.name;
      var first := WordSpecs(f.typ, fieldName, wi);
      var next := Advance(wi, |first|);
      WordsUnder(f.typ, fieldName, wi);
      FieldWordsUnder(fields[1..], name, next);
      UnderJoin(first, FieldWordSpecs(fields[1..], name, next), name, f.name);
      UnderJoin(RegBlobs(f.typ, fieldName, wi), FieldRegBlobs(fields[1..], name, next), name, f.name);
    }
  }

  lemma {:induction false} MemUnder(t: GoType, name: string, loc: MemLoc)
    ensures AllUnder(MemSpecs(t, name, loc), name)
    decreases t
  {
    hide Under;
    match t
    case Named(b) => MemUnder(b, name, loc);
    case Struct(_, fields, _) => FieldMemUnder(fields, name, loc);
    case _ => LeafNames(name);
  }

  lemma {:induction false} FieldMemUnder(fields: seq<Field>, name: string, loc: MemLoc)
    ensures AllUnder(FieldMemSpecs(fields, name, loc), name)
    decreases fields
  {
    hide Under, MemSpecs;
    if fields != [] {
      var f := fields[0];
      MemUnder(f.typ, name + "." + f.name, loc.Add(f.offset));
      FieldMemUnder(fields[1..], name, loc);
      UnderJoin(MemSpecs(f.typ, name + "." + f.name, loc.Add(f.offset)), FieldMemSpecs(fields[1..], name, loc), name, f.name);
    }
  }

  /** Every leaf's name starts with its variable's. */
  lemma ValueUnder(env: TypeEnv, t: GoType, name: string, wi: nat)
    ensures AllUnder(ValueSpecs(env, t, name, wi), name)
  {
    hide Under, WordSpecs, RegBlobs, MemSpecs;
    LeafNames(name);
    var u := Underlying(t);
    WordsUnder(u, name, wi);
    if u.Ptr? {
      MemUnder(env(u.target), name, MemLoc(Reg(wi), [], true));
    }
  }

  lemma GroupStems(env: TypeEnv, v: Variable, wi: nat)
    requires DotFree(v.name)
    ensures forall s <- ValueSpecs(env, v.typ, v.name, wi) :: Stem(s.name) == v.name
  {
    hide ValueSpecs, Under, Stem;
    ValueUnder(env, v.typ, v.name, wi);
    forall s | s in ValueSpecs(env, v.typ, v.name, wi)
      ensures Stem(s.name) == v.name
    {
      StemUnder(s.name, v.name);
    }
  }

  // ---- names: which leaves are type words ----

  predicate IsTypeName(s: string)
  {
    HasSuffix(s, ".type")
  }

  /** No field is called like a type word; `type` is no Go identifier. */
  predicate Typeless(t: GoType)
  {
    match t
    case Named(b) => Typeless(b)
    case Struct(_, fields, _) => forall f <- fields :: !IsTypeName("." + f.name) && Typeless(f.typ)
    case _ => true
  }

  predicate TypelessVar(env: TypeEnv, t: GoType)
  {
    Typeless(Underlying(t)) && (Underlying(t).Ptr? ==> Typeless(env(Underlying(t).target)))
  }

  lemma NotTyped(s: string)
    requires |s| > 0 && (s[|s| - 1] != 'e' || (|s| >= 3 && s[|s| - 3] != 'y') || DotFree(s))
    ensures !IsTypeName(s)
  {
    var t := ".type";
    assert t[0] == '.' && t[2] == 'y' && t[4] == 'e';
    assert |s| >= 5 ==> s[|s| - 5..][0] == s[|s| - 5] && s[|s| - 5..][2] == s[|s| - 3] && s[|s| - 5..][4] == s[|s| - 1];
  }

  lemma NotTypedSuffix(name: string, suffix: string)
    requires |suffix| >= 3 && (suffix[|suffix| - 1] != 'e' || suffix[|suffix| - 3] != 'y')
    ensures !IsTypeName(name + suffix)
  {
    NotTyped(name + suffix);
  }

  /** Of the names a leaf can have only the type word's ends like one. */
  lemma LeafNotTyped(name: string)
    ensures !IsTypeName(name + ".data") && !IsTypeName(name + ".len") && !IsTypeName(name + ".cap")
    ensures !IsTypeName(name + ".str") && !IsTypeName(name + ".arr")
    ensures !IsTypeName(name + ".value") && !IsTypeName(name + ".obj")
  {
    NotTypedSuffix(name, ".data");
    NotTypedSuffix(name, ".len");
    NotTypedSuffix(name, ".cap");
    NotTypedSuffix(name, ".str");
    NotTypedSuffix(name, ".arr");
    NotTypedSuffix(name, ".value");
    NotTypedSuffix(name, ".obj");
  }

  lemma FieldNotTyped(name: string, field: string)
    requires !IsTypeName("." + field)
    ensures !IsTypeName(name + "." + field)
  {
    var own, t := "." + field, ".type";
    var s := name + own;
    assert name + "." + field == s;
    if |own| >= 5 {
      SuffixOfTail(name, own);
    } else if |s| >= 5 {
      var tail := s[|s| - 5..];
      assert tail[5 - |own|] == s[|name|] == own[0] == '.';
      assert t[1] != '.' && t[2] != '.' && t[3] != '.' && t[4] != '.';
      assert tail[5 - |own|] != t[5 - |own|];
    }
  }

  lemma SuffixOfTail(a: string, b: string)
    requires |b| >= 5
    ensures IsTypeName(a + b) <==> IsTypeName(b)
  {
    assert (a + b)[|a + b| - 5..] == b[|b| - 5..];
  }

  predicate NoneTyped(specs: seq<ArgSpec>)
  {
    forall s <- specs :: !IsTypeName(s.name)
  }

  lemma {:induction false} WordsNotTyped(t: GoType, name: string, wi: nat)
    requires !HasIface(t) && Typeless(t) && !IsTypeName(name)
    ensures NoneTyped(WordSpecs(t, name, wi))
    decreases t
  {
    hide IsTypeName;
    match t
    case Named(b) => WordsNotTyped(b, name, wi);
    case Struct(_, fields, _) => FieldWordsNotTyped(fields, name, wi);
    case _ => LeafNotTyped(name);
  }

  lemma {:induction false} FieldWordsNotTyped(fields: seq<Field>, name: string, wi: nat)
    requires forall f <- fields :: !HasIface(f.typ) && !IsTypeName("." + f.name) && Typeless(f.typ)
    ensures NoneTyped(FieldWordSpecs(fields, name, wi))
    decreases fields
  {
    hide IsTypeName, WordSpecs;
    if fields != [] {
      var f := fields[0];
      FieldNotTyped(name, f.name);
      WordsNotTyped(f.typ, name + "." + f.name, wi);
      FieldWordsNotTyped(fields[1..], name, Advance(wi, |WordSpecs(f.typ, name + "." + f.name, wi)|));
    }
  }

  /** The blobs of a register value are never type words. */
  lemma {:induction false} BlobsNotTyped(t: GoType, name: string, wi: nat)
    ensures NoneTyped(RegBlobs(t, name, wi))
    decreases t
  {
    hide IsTypeName;
    match t
    case Named(b) => BlobsNotTyped(b, name, wi);
    case Struct(_, fields, _) => FieldBlobsNotTyped(fields, name, wi);
    case _ => LeafNotTyped(name);
  }

  lemma {:induction false} FieldBlobsNotTyped(fields: seq<Field>, name: string, wi: nat)
    ensures NoneTyped(FieldRegBlobs(fields, name, wi))
    decreases fields
  {
    hide IsTypeName, RegBlobs, WordSpecs;
    if fields != [] {
      var f := fields[0];
      BlobsNotTyped(f.typ, name + "." + f.name, wi);
      FieldBlobsNotTyped(fields[1..], name, Advance(wi, |WordSpecs(f.typ, name + "." + f.name, wi)|));
    }
  }

  lemma {:induction false} MemNotTyped(t: GoType, name: string, loc: MemLoc)
    requires NoItabs(t)
    ensures NoneTyped(MemSpecs(t, name, loc))
    decreases t
  {
    hide IsTypeName;
    match t
    case Named(b) => MemNotTyped(b, name, loc);
    case Struct(_, fields, _) => FieldMemNotTyped(fields, name, loc);
    case _ => LeafNotTyped(name);
  }

  lemma {:induction false} FieldMemNotTyped(fields: seq<Field>, name: string, loc: MemLoc)
    requires forall f <- fields :: NoItabs(f.typ)
    ensures NoneTyped(FieldMemSpecs(fields, name, loc))
    decreases fields
  {
    hide IsTypeName, MemSpecs;
    if fields != [] {
      MemNotTyped(fields[0].typ, name + "." + fields[0].name, loc.Add(fields[0].offset));
      FieldMemNotTyped(fields[1..], name, loc);
    }
  }

  /** A settled variable has no leaf that looks like a type word, so nothing of it is marked. */
  lemma SettledNotTyped(env: TypeEnv, v: Variable, wi: nat)
    requires Settled(env, v.typ) && DotFree(v.name) && TypelessVar(env, v.typ)
    ensures NoneTyped(ValueSpecs(env, v.typ, v.name, wi))
  {
    hide IsTypeName, WordSpecs, RegBlobs, MemSpecs, DotFree;
    DotFreeNotTyped(v.name);
    LeafNotTyped(v.name);
    var u := Underlying(v.typ);
    if u.Ptr? {
      if IsCapturedStruct(env(u.target)) {
        MemNotTyped(env(u.target), v.name, MemLoc(Reg(wi), [], true));
      }
    } else {
      WordsNotTyped(u, v.name, wi);
      BlobsNotTyped(u, v.name, wi);
    }
  }

  lemma DotFreeNotTyped(name: string)
    requires DotFree(name)
    ensures !IsTypeName(name)
  {
    if name != [] { NotTyped(name); }
  }

  // ---- the plan of a list ----

  /** Names as Go gives them: no dots, all distinct, no field called like a type word. */
  ghost predicate GoNames(env: TypeEnv, vars: seq<Variable>)
  {
    && (forall i | 0 <= i < |vars| :: DotFree(vars[i].name) && TypelessVar(env, vars[i].typ))
    && forall i, j | 0 <= i < j < |vars| :: vars[i].name != vars[j].name
  }

  function Names(vars: seq<Variable>): set<string>
  {
    set i | 0 <= i < |vars| :: vars[i].name
  }

  /** All of them planned, one after the other. */
  function AllSpecs(env: TypeEnv, vars: seq<Variable>, wi: nat): seq<ArgSpec>
  {
    if vars == [] then []
    else ValueSpecs(env, vars[0].typ, vars[0].name, wi) + AllSpecs(env, vars[1..], wi + AbiWordCount(vars[0].typ))
  }

  function AllValues(env: TypeEnv, vars: seq<Variable>): (values: seq<Value>)
    ensures |values| == |vars|
  {
    if vars == [] then []
    else [PlannedValue(env, vars[0].typ, vars[0].name)] + AllValues(env, vars[1..])
  }

  /** The first leaf of the k-th variable. */
  function LeafOf(env: TypeEnv, vars: seq<Variable>, k: nat): nat
    requires k <= |vars|
    decreases k
  {
    if k == 0 then 0 else PlannedValue(env, vars[0].typ, vars[0].name).LeafCount() + LeafOf(env, vars[1..], k - 1)
  }

  /** The word of the k-th variable. */
  function WordOf(vars: seq<Variable>, k: nat): nat
    requires k <= |vars|
    decreases k
  {
    if k == 0 then 0 else AbiWordCount(vars[0].typ) + WordOf(vars[1..], k - 1)
  }

  /** Every leaf's name starts with its variable's. */
  lemma {:induction false} StemsOf(env: TypeEnv, vars: seq<Variable>, wi: nat)
    requires forall i | 0 <= i < |vars| :: DotFree(vars[i].name)
    ensures forall s <- AllSpecs(env, vars, wi) :: Stem(s.name) in Names(vars)
    decreases vars
  {
    hide ValueSpecs, AbiWordCount, Stem, DotFree;
    if vars != [] {
      var v := vars[0];
      var first := ValueSpecs(env, v.typ, v.name, wi);
      var rest := AllSpecs(env, vars[1..], wi + AbiWordCount(v.typ));
      GroupStems(env, v, wi);
      StemsOf(env, vars[1..], wi + AbiWordCount(v.typ));
      assert v.name in Names(vars);
      TailNames(vars);
      forall s | s in AllSpecs(env, vars, wi)
        ensures Stem(s.name) in Names(vars)
      {
        assert s in first || s in rest;
      }
    }
  }

  lemma TailNames(vars: seq<Variable>)
    requires vars != []
    ensures Names(vars[1..]) <= Names(vars)
  {
    forall x | x in Names(vars[1..])
      ensures x in Names(vars)
    {
      var j :| 0 <= j < |vars[1..]| && vars[1..][j].name == x;
      assert vars[j + 1].name == x;
    }
  }

  // ---- the marks ----

  lemma {:induction false} TypeSlotIs(args: seq<FetchArg>, prefix: string, at: nat)
    requires at < |args| && args[at].name == prefix + ".type"
    requires forall m | at < m < |args| :: args[m].name != prefix + ".type"
    ensures TypeSlot(args, prefix) == Some(at)
  {
    if at < |args| - 1 { TypeSlotIs(args[..|args| - 1], prefix, at); }
  }

  /** The slot found is one of that name, if there is one. */
  lemma {:induction false} TypeSlotFinds(args: seq<FetchArg>, prefix: string)
    ensures match TypeSlot(args, prefix)
            case None => forall m | 0 <= m < |args| :: args[m].name != prefix + ".type"
            case Some(at) => at < |args| && args[at].name == prefix + ".type"
  {
    if args != [] { TypeSlotFinds(args[..|args| - 1], prefix); }
  }

  /** The leaves from `off` on are one variable's. */
  predicate SliceAt(env: TypeEnv, specs: seq<ArgSpec>, off: nat, v: Variable, wi: nat)
  {
    var group := ValueSpecs(env, v.typ, v.name, wi);
    off + |group| <= |specs| && specs[off..off + |group|] == group
  }

  /** And no other leaf carries its name. */
  ghost predicate GroupAt(env: TypeEnv, specs: seq<ArgSpec>, off: nat, v: Variable, wi: nat)
  {
    var group := ValueSpecs(env, v.typ, v.name, wi);
    && DotFree(v.name) && TypelessVar(env, v.typ) && SliceAt(env, specs, off, v, wi)
    && forall m | 0 <= m < |specs| && !(off <= m < off + |group|) :: Stem(specs[m].name) != v.name
  }

  lemma GroupBound(env: TypeEnv, specs: seq<ArgSpec>, off: nat, v: Variable, wi: nat)
    requires GroupAt(env, specs, off, v, wi)
    ensures SliceAt(env, specs, off, v, wi) && off + |ValueSpecs(env, v.typ, v.name, wi)| <= |specs|
  {
  }

  lemma PlainArg(s: ArgSpec)
    ensures ToFetchArg(s).name == s.name && !ToFetchArg(s).ifaceData && ToFetchArg(s).typeIndex == 0
  {
  }

  lemma GroupName(env: TypeEnv, specs: seq<ArgSpec>, off: nat, v: Variable, wi: nat, i: nat)
    requires GroupAt(env, specs, off, v, wi) && i < |ValueSpecs(env, v.typ, v.name, wi)|
    ensures specs[off + i] == ValueSpecs(env, v.typ, v.name, wi)[i] && Stem(specs[off + i].name) == v.name
  {
    hide ValueSpecs, Stem, DotFree;
    var group := ValueSpecs(env, v.typ, v.name, wi);
    assert specs[off..off + |group|][i] == specs[off + i];
    GroupStems(env, v, wi);
    assert group[i] in group;
  }

  /** A marked leaf is a data word, and its type slot lies in the same variable and is named alike. */
  lemma MarkInside(env: TypeEnv, specs: seq<ArgSpec>, off: nat, v: Variable, wi: nat, i: nat)
    requires GroupAt(env, specs, off, v, wi) && i < |ValueSpecs(env, v.typ, v.name, wi)|
    ensures var arg := Marked(ToFetchArgs(specs), off + i);
            && (!arg.ifaceData ==> arg.typeIndex == 0)
            && (arg.ifaceData ==>
                  && off <= arg.typeIndex < off + |ValueSpecs(env, v.typ, v.name, wi)|
                  && HasSuffix(specs[off + i].name, ".data")
                  && specs[arg.typeIndex].name == TrimSuffix(specs[off + i].name, ".data") + ".type")
  {
    hide ValueSpecs, Stem, TypeSlot, HasSuffix, TrimSuffix, DotFree, ToFetchArg;
    var args := ToFetchArgs(specs);
    var name := specs[off + i].name;
    var prefix := TrimSuffix(name, ".data");
    PlainArg(specs[off + i]);
    GroupName(env, specs, off, v, wi, i);
    TypeSlotFinds(args, prefix);
    if HasSuffix(name, ".data") && TypeSlot(args, prefix).Some? {
      var at := TypeSlot(args, prefix).value;
      PlainArg(specs[at]);
      SuffixName(name, prefix, ".data");
      SameStem(prefix, ".data", ".type");
    }
  }

  /** Of a top-level variable only an interface's data word is marked, with its own type slot; of a
   *  settled variable nothing is. */
  lemma GroupMarks(env: TypeEnv, specs: seq<ArgSpec>, off: nat, v: Variable, wi: nat, i: nat)
    requires GroupAt(env, specs, off, v, wi) && Orderly(env, v.typ) && i < |ValueSpecs(env, v.typ, v.name, wi)|
    ensures var arg := Marked(ToFetchArgs(specs), off + i);
            if Underlying(v.typ).Iface? && i == 1 then arg.ifaceData && arg.typeIndex == off
            else !arg.ifaceData
  {
    hide ValueSpecs, Stem, TypeSlot, HasSuffix, TrimSuffix, DotFree, ToFetchArg, IsTypeName, Settled, Marked;
    MarkInside(env, specs, off, v, wi, i);
    if Underlying(v.typ).Iface? {
      IfaceMarks(env, specs, off, v, wi, i);
    } else {
      SettledNotTyped(env, v, wi);
      var arg := Marked(ToFetchArgs(specs), off + i);
      if arg.ifaceData {
        var at := arg.typeIndex;
        GroupName(env, specs, off, v, wi, at - off);
        assert specs[at] in ValueSpecs(env, v.typ, v.name, wi);
        TypeNamed(TrimSuffix(specs[off + i].name, ".data"));
      }
    }
  }

  lemma TypeNamed(prefix: string)
    ensures IsTypeName(prefix + ".type")
  {
    SuffixName(prefix + ".type", prefix, ".type");
  }

  /** The three leaves of a top-level interface. */
  lemma IfaceSpecs(env: TypeEnv, v: Variable, wi: nat)
    requires Underlying(v.typ).Iface?
    ensures var specs := ValueSpecs(env, v.typ, v.name, wi);
            && |specs| == 3
            && specs[0] == TypeWordSpec(v.name, Underlying(v.typ).nonEmpty, Reg(wi)) && specs[0].name == v.name + ".type"
            && specs[1] == WordSpec(v.name + ".data", 8, Reg(Advance(wi, 1)))
            && specs[2] == BlobAt(v.name + ".value", MemLoc(Reg(Advance(wi, 1)), [], true))
  {
  }

  lemma IfaceMarks(env: TypeEnv, specs: seq<ArgSpec>, off: nat, v: Variable, wi: nat, i: nat)
    requires GroupAt(env, specs, off, v, wi) && Underlying(v.typ).Iface? && i < |ValueSpecs(env, v.typ, v.name, wi)|
    ensures var arg := Marked(ToFetchArgs(specs), off + i);
            if i == 1 then arg.ifaceData && arg.typeIndex == off else !arg.ifaceData
  {
    hide ValueSpecs, Stem, TypeSlot, HasSuffix, TrimSuffix, DotFree, ToFetchArg;
    var args := ToFetchArgs(specs);
    IfaceSpecs(env, v, wi);
    GroupName(env, specs, off, v, wi, i);
    PlainArg(specs[off + i]);
    if i == 1 {
      IfaceSlot(env, specs, off, v, wi);
      SuffixName(v.name + ".data", v.name, ".data");
    } else {
      NotDataSuffix(v.name);
    }
  }

  lemma NotDataSuffix(name: string)
    ensures !HasSuffix(name + ".type", ".data") && !HasSuffix(name + ".value", ".data")
  {
    var a, b, d := name + ".type", name + ".value", ".data";
    assert a[|a| - 5..][4] == 'e' && b[|b| - 5..][4] == 'e' && d[4] == 'a';
  }

  lemma IfaceSlot(env: TypeEnv, specs: seq<ArgSpec>, off: nat, v: Variable, wi: nat)
    requires GroupAt(env, specs, off, v, wi) && Underlying(v.typ).Iface?
    ensures TypeSlot(ToFetchArgs(specs), v.name) == Some(off)
  {
    hide ValueSpecs, Stem, TypeSlot, HasSuffix, DotFree, ToFetchArg, IsTypeName;
    var args := ToFetchArgs(specs);
    IfaceSpecs(env, v, wi);
    GroupName(env, specs, off, v, wi, 0);
    PlainArg(specs[off]);
    LeafNotTyped(v.name);
    TypeNamed(v.name);
    StemOf(v.name, ".type");
    forall m | off < m < |args|
      ensures args[m].name != v.name + ".type"
    {
      PlainArg(specs[m]);
      if m < off + 3 {
        GroupName(env, specs, off, v, wi, m - off);
      }
    }
    TypeSlotIs(args, v.name, off);
  }

  // ---- the encoded rules ----

  /** The rules loaded for a plan, as the recipe code in the probe sees them. */
  ghost predicate RulesFor(specs: seq<ArgSpec>, rules: seq<KernelFetch.KernelRule>)
  {
    && |rules| == |specs| <= MAX_FETCH_ARGS
    && forall i | 0 <= i < |specs| ::
         var arg := Marked(ToFetchArgs(specs), i);
         rules[i].ifaceData == arg.ifaceData
         && rules[i].typeIdx == (if arg.ifaceData then KernelFetch.Uint8(arg.typeIndex) else 0)
  }

  lemma LoadedRules(specs: seq<ArgSpec>, args: seq<FetchArg>, rules: seq<KernelFetch.KernelRule>)
    requires Loaded(specs, args, rules) && |specs| <= MAX_FETCH_ARGS
    ensures RulesFor(specs, rules)
  {
    hide Marked, ToFetchArgs, KernelFetch.Uint8;
  }

  /** What is fixed while the list is decoded: both sides' tables, the plan and its event. */
  datatype Event = Event(ctx: KernelFetch.PtRegs, mem: Memory, specs: seq<ArgSpec>, rules: seq<KernelFetch.KernelRule>,
                         user: RecipeTable, kernel: KernelFetch.KernelRecipes)

  ghost predicate Sent(e: Event)
  {
    SameTable(e.user, e.kernel) && KernelFetch.ValidRecipes(e.kernel) && RulesFor(e.specs, e.rules)
  }

  function Generic(e: Event): (leaves: seq<LeafData>)
    ensures |leaves| == |e.specs|
  {
    ExecAll(e.ctx, e.mem, e.specs)
  }

  /** What rules `from` to `to` add to the event, were there room. */
  function OwedIn(e: Event, from: nat, to: nat): seq<LeafData>
    requires KernelFetch.ValidRecipes(e.kernel) && from <= to <= |e.rules|
    decreases if from <= to then to - from else 0
  {
    if from == to then [] else Owed(e.mem, e.rules, Generic(e), from, e.kernel) + OwedIn(e, from + 1, to)
  }

  lemma {:induction false} OwedJoin(e: Event, from: nat, mid: nat, to: nat)
    requires KernelFetch.ValidRecipes(e.kernel) && from <= mid <= to <= |e.rules|
    ensures OwedIn(e, from, to) == OwedIn(e, from, mid) + OwedIn(e, mid, to)
    decreases if from <= mid then mid - from else 0
  {
    hide Owed;
    if from < mid { OwedJoin(e, from + 1, mid, to); }
  }

  lemma {:induction false} OwedAll(e: Event, from: nat)
    requires KernelFetch.ValidRecipes(e.kernel) && from <= |e.rules|
    ensures OwedFrom(e.mem, e.rules, Generic(e), from, e.kernel) == OwedIn(e, from, |e.rules|)
    decreases if from <= |e.rules| then |e.rules| - from else 0
  {
    hide Owed;
    if from < |e.rules| { OwedAll(e, from + 1); }
  }

  /** The leaves of the event: the plan's, then what is owed, as far as there is room. */
  function EventOf(e: Event): (all: seq<LeafData>)
    requires KernelFetch.ValidRecipes(e.kernel) && |e.specs| <= MAX_FETCH_ARGS
    ensures |e.specs| <= |all| <= MAX_FETCH_ARGS && all[..|e.specs|] == Generic(e)
  {
    Generic(e) + KernelFetch.Take(OwedIn(e, 0, |e.rules|), MAX_FETCH_ARGS - |Generic(e)|)
  }

  /** Where the leaves owed by the rules from `off` on start: behind those owed before. */
  function OwnCursor(e: Event, off: nat): (cursor: nat)
    requires KernelFetch.ValidRecipes(e.kernel) && |e.specs| <= MAX_FETCH_ARGS && off <= |e.rules|
    ensures cursor <= |EventOf(e)|
  {
    KernelFetch.Min(|EventOf(e)|, |e.specs| + |OwedIn(e, 0, off)|)
  }

  lemma {:induction false} NothingOwed(e: Event, from: nat, to: nat)
    requires KernelFetch.ValidRecipes(e.kernel) && from <= to <= |e.rules|
    requires forall i | from <= i < to :: !KernelFetch.HasRecipe(e.rules[i], Generic(e), e.kernel)
    ensures OwedIn(e, from, to) == []
    decreases if from <= to then to - from else 0
  {
    hide KernelFetch.HasRecipe;
    if from < to { NothingOwed(e, from + 1, to); }
  }

  /** What an interface in slots `off` and `off + 1` is owed, by its type word and data word. */
  function IfaceOwed(mem: Memory, leaves: seq<LeafData>, off: nat, recipes: KernelFetch.KernelRecipes): seq<LeafData>
    requires KernelFetch.ValidRecipes(recipes)
  {
    var typeAddr := KernelFetch.LoadArgWord(leaves, off);
    if typeAddr == 0 || typeAddr !in recipes then []
    else KernelFetch.RecipeLeaves(mem, KernelFetch.LoadArgWord(leaves, off + 1), recipes[typeAddr])
  }

  /** What a variable whose leaves start at `off` is owed. */
  function OwnOwed(e: Event, off: nat, t: GoType): seq<LeafData>
    requires KernelFetch.ValidRecipes(e.kernel)
  {
    if Underlying(t).Iface? then IfaceOwed(e.mem, Generic(e), off, e.kernel) else []
  }

  /** An orderly variable's rules add the recipe of the interface it is, or nothing. */
  lemma GroupOwed(env: TypeEnv, e: Event, off: nat, v: Variable, wi: nat)
    requires Sent(e) && GroupAt(env, e.specs, off, v, wi) && Orderly(env, v.typ)
    ensures off + |ValueSpecs(env, v.typ, v.name, wi)| <= |e.rules| == |e.specs|
    ensures OwedIn(e, off, off + |ValueSpecs(env, v.typ, v.name, wi)|) == OwnOwed(e, off, v.typ)
  {
    hide ValueSpecs, Owed, OwedIn, IfaceOwed, SameTable, GroupAt, RulesFor;
    var n := |ValueSpecs(env, v.typ, v.name, wi)|;
    var u := Underlying(v.typ);
    RulesCount(e.specs, e.rules);
    GroupBound(env, e.specs, off, v, wi);
    forall i | off <= i < off + n
      ensures e.rules[i].ifaceData == (u.Iface? && i == off + 1)
      ensures e.rules[i].ifaceData ==> e.rules[i].typeIdx == off
    {
      RuleMarks(env, e, off, v, wi, i);
    }
    if u.Iface? {
      IfaceSpecs(env, v, wi);
      NothingOwed(e, off, off + 1);
      SlotOwed(e, off);
      NothingOwed(e, off + 2, off + 3);
      OwedJoin(e, off, off + 1, off + 3);
      OwedJoin(e, off + 1, off + 2, off + 3);
      OwedByOne(e, off + 1);
    } else {
      NothingOwed(e, off, off + n);
    }
  }

  lemma OwedByOne(e: Event, i: nat)
    requires KernelFetch.ValidRecipes(e.kernel) && i < |e.rules|
    ensures OwedIn(e, i, i + 1) == Owed(e.mem, e.rules, Generic(e), i, e.kernel)
  {
    hide Owed;
    assert OwedIn(e, i + 1, i + 1) == [];
  }

  lemma RuleMarks(env: TypeEnv, e: Event, off: nat, v: Variable, wi: nat, i: nat)
    requires Sent(e) && GroupAt(env, e.specs, off, v, wi) && Orderly(env, v.typ)
    requires off <= i < off + |ValueSpecs(env, v.typ, v.name, wi)|
    ensures i < |e.rules| && e.rules[i].ifaceData == (Underlying(v.typ).Iface? && i == off + 1)
    ensures e.rules[i].ifaceData ==> e.rules[i].typeIdx == off
  {
    hide ValueSpecs, Marked, ToFetchArgs, Stem, KernelFetch.Uint8, SameTable, DotFree, TypelessVar, Orderly;
    GroupMarks(env, e.specs, off, v, wi, i - off);
    SmallIndex(off);
  }

  lemma SmallIndex(n: nat)
    ensures n < 256 ==> KernelFetch.Uint8(n) == n
  {
  }

  lemma SlotOwed(e: Event, off: nat)
    requires KernelFetch.ValidRecipes(e.kernel) && off + 1 < |e.rules| <= MAX_FETCH_ARGS
    requires e.rules[off + 1].ifaceData && e.rules[off + 1].typeIdx == off
    ensures Owed(e.mem, e.rules, Generic(e), off + 1, e.kernel) == IfaceOwed(e.mem, Generic(e), off, e.kernel)
  {
    hide KernelFetch.RecipeLeaves, KernelFetch.LoadArgWord;
  }

  // ---- the decoder's side ----

  /** The leaves from `extra` on are these, as far as the event had room. */
  ghost predicate OwnLeaves(all: seq<LeafData>, extra: nat, owed: seq<LeafData>)
  {
    extra <= |all| && forall j | 0 <= j < |owed| && extra + j < |all| :: all[extra + j] == owed[j]
  }

  /** From the cursor of rule `off` on the event holds what rules `off` to `to` are owed. */
  lemma OwnLeavesFound(e: Event, off: nat, to: nat)
    requires Sent(e) && off <= to <= |e.rules|
    ensures OwnLeaves(EventOf(e), OwnCursor(e, off), OwedIn(e, off, to))
    ensures OwnCursor(e, to) == KernelFetch.Min(|EventOf(e)|, OwnCursor(e, off) + |OwedIn(e, off, to)|)
  {
    hide SameTable, RulesFor, Exec, KernelFetch.ValidRecipes, OwedIn;
    RulesCount(e.specs, e.rules);
    OwedJoin(e, 0, off, to);
    OwedJoin(e, 0, to, |e.rules|);
    var done, owed, rest := OwedIn(e, 0, off), OwedIn(e, off, to), OwedIn(e, to, |e.rules|);
    TakenInOrder(Generic(e), done, owed, rest, EventOf(e), OwnCursor(e, off));
  }

  lemma TakenInOrder(leaves: seq<LeafData>, done: seq<LeafData>, owed: seq<LeafData>, rest: seq<LeafData>,
                     all: seq<LeafData>, extra: nat)
    requires |leaves| <= MAX_FETCH_ARGS
    requires all == leaves + KernelFetch.Take(done + owed + rest, MAX_FETCH_ARGS - |leaves|)
    requires extra == KernelFetch.Min(|all|, |leaves| + |done|)
    ensures OwnLeaves(all, extra, owed)
    ensures KernelFetch.Min(|all|, extra + |owed|) == KernelFetch.Min(|all|, |leaves| + |done + owed|)
  {
    forall j | 0 <= j < |owed| && extra + j < |all|
      ensures all[extra + j] == owed[j]
    {
      assert (done + owed + rest)[|done| + j] == owed[j];
    }
  }

  lemma RulesCount(specs: seq<ArgSpec>, rules: seq<KernelFetch.KernelRule>)
    requires RulesFor(specs, rules)
    ensures |rules| == |specs| <= MAX_FETCH_ARGS
  {
  }

  /** How many leaves a recipe takes does not depend on what they hold. */
  lemma {:induction false} BindCount(rules: seq<RelRule>, dataPtr: nat, all: seq<LeafData>, b: Binding)
    requires b.extra <= |all|
    ensures BindRecipe(rules, dataPtr, all, b).extra == KernelFetch.Min(|all|, b.extra + |rules|)
    decreases |rules|
  {
    hide EvalRel;
    if rules != [] && b.extra < |all| {
      var addr := EvalRel(dataPtr, rules[0].steps, b.chunks);
      BindCount(rules[1..], dataPtr, all, Binding(b.chunks + Put(addr, all[b.extra]), b.extra + 1));
    }
  }

  /** A settled variable takes no recipe leaf, whatever its own leaves hold. */
  lemma SettledTakesNone(d: Decoder, value: Value, words: seq<LeafData>, captures: seq<LeafData>, all: seq<LeafData>,
                         extra: nat, user: RecipeTable)
    requires Settled(d.env, value.typ) && (|captures| > 0 ==> |captures[0].data| == AUTO_STRING_SIZE)
    ensures RenderLeaves(d, value, words, captures, all, extra, user).extra == extra
  {
    hide RenderValue, ConsumeMem, ConsumeReg, ScatteredImage, ApplyNested, ConcatLeaves;
    var u := Underlying(value.typ);
    if u.Ptr? && IsCapturedStruct(d.env(u.target)) && |captures| > 0 {
      NothingNear(user, d.env(u.target), captures[0].data);
      NoRecipesNested(user, d.env(u.target), captures[0].data, all);
    }
  }

  /** With no interface among the bytes in hand there is no recipe to know. */
  lemma {:induction false} NothingNear(user: RecipeTable, t: GoType, data: Bytes)
    requires NoItabs(t) && !EmptyWithin(t, |data|)
    ensures NoneKnown(user, t, data)
    decreases t
  {
    match t
    case Named(b) => NothingNear(user, b, data);
    case Struct(_, fields, _) =>
      forall f | f in fields
        ensures NoneKnown(user, f.typ, FieldMem(data, f.offset))
      {
        assert |FieldMem(data, f.offset)| == Behind(|data|, f.offset);
        NothingNear(user, f.typ, FieldMem(data, f.offset));
      }
    case _ =>
  }

  /** An interface takes as many leaves as the probe owes it. */
  lemma IfaceTakes(d: Decoder, value: Value, words: seq<LeafData>, captures: seq<LeafData>, all: seq<LeafData>,
                   extra: nat, e: Event)
    requires Underlying(value.typ).Iface? && Sent(e) && extra <= |all|
    requires |words| == 2 && |words[0].data| == 64 == |words[1].data|
    requires words[0].isNil || words[0].readError ==> ReadUint(words[0].data) == 0
    requires !words[1].readError
    ensures RenderLeaves(d, value, words, captures, all, extra, e.user).extra
         == KernelFetch.Min(|all|, extra + |IfaceOwed(e.mem, words, 0, e.kernel)|)
  {
    hide RenderValue, ConcatLeaves, BindIface, BindRecipe;
    IfaceWords(words);
    var header := ConcatLeaves(words);
    var typeAddr := ReadUint(words[0].data);
    OwedWords(e.mem, words, e.kernel);
    if typeAddr != 0 && typeAddr in e.user {
      BindCount(e.user[typeAddr], ReadUint(header[8..]), all, Binding(BindIface(header, captures), extra));
    }
  }

  lemma OwedWords(mem: Memory, words: seq<LeafData>, kernel: KernelFetch.KernelRecipes)
    requires |words| == 2 && KernelFetch.ValidRecipes(kernel)
    ensures var typeAddr, dataPtr := ReadUint(words[0].data), ReadUint(words[1].data);
            var owed := if typeAddr == 0 || typeAddr !in kernel then []
                        else KernelFetch.RecipeLeaves(mem, dataPtr, kernel[typeAddr]);
            IfaceOwed(mem, words, 0, kernel) == owed
  {
  }

  // ---- the whole list ----

  /** The two cursors before the k-th value is decoded. */
  function Cursors(d: Decoder, values: seq<Value>, k: nat, all: seq<LeafData>, cur: nat, extra: nat, user: RecipeTable)
    : (c: (nat, nat))
    requires k <= |values| && cur <= |all|
    ensures c.0 <= |all|
    decreases k
  {
    if k == 0 then (cur, extra)
    else
      var p := RenderAuto(d, values[0], all, cur, extra, user);
      Cursors(d, values[1..], k - 1, all, p.cur, p.extra, user)
  }

  /** What is shown of the k-th value is rendered from where the cursors then stand. */
  lemma {:induction false} ShownAt(d: Decoder, values: seq<Value>, k: nat, all: seq<LeafData>, cur: nat, extra: nat, user: RecipeTable)
    requires k < |values| && cur <= |all|
    ensures var c := Cursors(d, values, k, all, cur, extra, user);
            var shown := NamedValue(values[k].name, RenderAuto(d, values[k], all, c.0, c.1, user).rendered);
            RenderList(d, values, all, cur, extra, user)[k] == shown
    decreases k
  {
    hide RenderAuto;
    if k > 0 {
      var p := RenderAuto(d, values[0], all, cur, extra, user);
      ShownAt(d, values[1..], k - 1, all, p.cur, p.extra, user);
    }
  }

  /** The leaves from some position on are these variables', one after the other. */
  predicate LaidOut(env: TypeEnv, specs: seq<ArgSpec>, off: nat, vars: seq<Variable>, wi: nat)
  {
    && wi <= off <= |specs|
    && (forall i | 0 <= i < |vars| :: AbiWordCount(vars[i].typ) > 0)
    && specs[off..] == AllSpecs(env, vars, wi)
  }

  /** And no leaf before them carries one of their names. */
  ghost predicate TailAt(env: TypeEnv, specs: seq<ArgSpec>, off: nat, vars: seq<Variable>, wi: nat)
  {
    && GoNames(env, vars) && LaidOut(env, specs, off, vars, wi)
    && forall m | 0 <= m < off :: Stem(specs[m].name) !in Names(vars)
  }

  lemma WholeTail(env: TypeEnv, specs: seq<ArgSpec>, vars: seq<Variable>)
    requires specs == AllSpecs(env, vars, 0)
    requires forall i | 0 <= i < |vars| :: AbiWordCount(vars[i].typ) > 0
    ensures LaidOut(env, specs, 0, vars, 0) && (GoNames(env, vars) ==> TailAt(env, specs, 0, vars, 0))
  {
    assert specs[0..] == specs;
  }

  /** The first of them and the rest. */
  lemma TailSplit(env: TypeEnv, specs: seq<ArgSpec>, off: nat, vars: seq<Variable>, wi: nat)
    requires TailAt(env, specs, off, vars, wi) && vars != []
    ensures var v := vars[0];
            var n := PlannedValue(env, v.typ, v.name).LeafCount();
            && |ValueSpecs(env, v.typ, v.name, wi)| == n > 0
            && GroupAt(env, specs, off, v, wi) && TailAt(env, specs, off + n, vars[1..], wi + AbiWordCount(v.typ))
  {
    hide ValueSpecs, Stem, DotFree, AbiWordCount, ValueCaptures, TypelessVar, Names, GoNames, AllSpecs, PlannedValue;
    var v, rest := vars[0], vars[1..];
    ValueSpecsCount(env, v.typ, v.name, wi);
    TailShape(env, specs, off, vars, wi);
    FirstName(env, vars);
    var n := |ValueSpecs(env, v.typ, v.name, wi)|;
    SomeLeaf(env, v);
    assert forall m | 0 <= m < off + n :: Stem(specs[m].name) !in Names(rest);
  }

  lemma SomeLeaf(env: TypeEnv, v: Variable)
    ensures AbiWordCount(v.typ) <= PlannedValue(env, v.typ, v.name).LeafCount()
  {
  }

  /** The leaves of the first variable carry its name, the others do not. */
  lemma TailShape(env: TypeEnv, specs: seq<ArgSpec>, off: nat, vars: seq<Variable>, wi: nat)
    requires GoNames(env, vars) && vars != [] && off <= |specs| && specs[off..] == AllSpecs(env, vars, wi)
    ensures var v := vars[0];
            var group := ValueSpecs(env, v.typ, v.name, wi);
            var end := off + |group|;
            && end <= |specs| && specs[off..end] == group
            && specs[end..] == AllSpecs(env, vars[1..], wi + AbiWordCount(v.typ))
            && (forall m | off <= m < end :: Stem(specs[m].name) == v.name)
            && (forall m | end <= m < |specs| :: Stem(specs[m].name) in Names(vars[1..]))
  {
    hide ValueSpecs, Stem, DotFree, AbiWordCount, TypelessVar, Names;
    var v, rest := vars[0], vars[1..];
    var group := ValueSpecs(env, v.typ, v.name, wi);
    var end := off + |group|;
    var tail := AllSpecs(env, rest, wi + AbiWordCount(v.typ));
    assert specs[off..end] == specs[off..][..|group|] == group;
    assert specs[end..] == specs[off..][|group|..] == tail;
    StemsOf(env, rest, wi + AbiWordCount(v.typ));
    GroupStems(env, v, wi);
    forall m | off <= m < |specs|
      ensures if m < end then Stem(specs[m].name) == v.name else Stem(specs[m].name) in Names(rest)
    {
      if m >= end {
        assert specs[m] == tail[m - end] && tail[m - end] in tail;
      } else {
        assert specs[m] == group[m - off] && group[m - off] in group;
      }
    }
  }

  lemma FirstName(env: TypeEnv, vars: seq<Variable>)
    requires GoNames(env, vars) && vars != []
    ensures vars[0].name in Names(vars) && vars[0].name !in Names(vars[1..]) && Names(vars[1..]) <= Names(vars)
    ensures GoNames(env, vars[1..]) && DotFree(vars[0].name) && TypelessVar(env, vars[0].typ)
  {
    hide DotFree, TypelessVar;
    TailNames(vars);
  }

  /** Where the k-th of them lies. */
  lemma {:induction false} GroupOf(env: TypeEnv, specs: seq<ArgSpec>, off: nat, vars: seq<Variable>, wi: nat, k: nat)
    requires TailAt(env, specs, off, vars, wi) && k <= |vars|
    ensures var at := off + LeafOf(env, vars, k);
            && TailAt(env, specs, at, vars[k..], wi + WordOf(vars, k))
            && (k < |vars| ==>
                  && GroupAt(env, specs, at, vars[k], wi + WordOf(vars, k))
                  && |ValueSpecs(env, vars[k].typ, vars[k].name, wi + WordOf(vars, k))|
                     == PlannedValue(env, vars[k].typ, vars[k].name).LeafCount() > 0)
    decreases k
  {
    hide TailAt, GroupAt, ValueSpecs, AbiWordCount, ValueCaptures;
    if k == 0 {
      assert vars[0..] == vars;
      if vars != [] { TailSplit(env, specs, off, vars, wi); }
    } else {
      var n := PlannedValue(env, vars[0].typ, vars[0].name).LeafCount();
      TailSplit(env, specs, off, vars, wi);
      GroupOf(env, specs, off + n, vars[1..], wi + AbiWordCount(vars[0].typ), k - 1);
      assert vars[1..][k - 1..] == vars[k..];
    }
  }

  /** The first variable's leaves and the others'; names do not matter. */
  lemma SliceSplit(env: TypeEnv, specs: seq<ArgSpec>, off: nat, vars: seq<Variable>, wi: nat)
    requires LaidOut(env, specs, off, vars, wi) && vars != []
    ensures var v := vars[0];
            var n := PlannedValue(env, v.typ, v.name).LeafCount();
            && |ValueSpecs(env, v.typ, v.name, wi)| == n > 0
            && SliceAt(env, specs, off, v, wi) && LaidOut(env, specs, off + n, vars[1..], wi + AbiWordCount(v.typ))
  {
    hide ValueSpecs, AbiWordCount, ValueCaptures;
    var v := vars[0];
    ValueSpecsCount(env, v.typ, v.name, wi);
    var n := |ValueSpecs(env, v.typ, v.name, wi)|;
    assert specs[off..off + n] == specs[off..][..n];
    assert specs[off + n..] == specs[off..][n..] == AllSpecs(env, vars[1..], wi + AbiWordCount(v.typ));
  }

  /** Where the k-th variable's leaves lie. */
  lemma {:induction false} SliceOf(env: TypeEnv, specs: seq<ArgSpec>, off: nat, vars: seq<Variable>, wi: nat, k: nat)
    requires LaidOut(env, specs, off, vars, wi) && k <= |vars|
    ensures var at := off + LeafOf(env, vars, k);
            && wi + WordOf(vars, k) <= at <= |specs|
            && (k < |vars| ==>
                  && SliceAt(env, specs, at, vars[k], wi + WordOf(vars, k)) && AbiWordCount(vars[k].typ) > 0
                  && at + |ValueSpecs(env, vars[k].typ, vars[k].name, wi + WordOf(vars, k))| <= |specs|
                  && |ValueSpecs(env, vars[k].typ, vars[k].name, wi + WordOf(vars, k))|
                     == PlannedValue(env, vars[k].typ, vars[k].name).LeafCount() > 0)
    decreases k
  {
    hide LaidOut, SliceAt, ValueSpecs, AbiWordCount, ValueCaptures;
    LaidInside(env, specs, off, vars, wi);
    if k == 0 {
      if vars != [] {
        SliceSplit(env, specs, off, vars, wi);
        SliceBound(env, specs, off, vars[0], wi);
      }
    } else {
      var n := PlannedValue(env, vars[0].typ, vars[0].name).LeafCount();
      SliceSplit(env, specs, off, vars, wi);
      SliceOf(env, specs, off + n, vars[1..], wi + AbiWordCount(vars[0].typ), k - 1);
    }
  }

  lemma SliceBound(env: TypeEnv, specs: seq<ArgSpec>, off: nat, v: Variable, wi: nat)
    requires SliceAt(env, specs, off, v, wi)
    ensures off + |ValueSpecs(env, v.typ, v.name, wi)| <= |specs|
  {
  }

  lemma LaidInside(env: TypeEnv, specs: seq<ArgSpec>, off: nat, vars: seq<Variable>, wi: nat)
    requires LaidOut(env, specs, off, vars, wi)
    ensures wi <= off <= |specs| && forall i | 0 <= i < |vars| :: AbiWordCount(vars[i].typ) > 0
  {
  }

  /** A variable's own leaves, cut out of the event. */
  lemma EventSlice(env: TypeEnv, e: Event, off: nat, v: Variable, wi: nat, words: nat)
    requires Sent(e) && SliceAt(env, e.specs, off, v, wi) && words <= |ValueSpecs(env, v.typ, v.name, wi)|
    ensures var leaves := ExecAll(e.ctx, e.mem, ValueSpecs(env, v.typ, v.name, wi));
            && |e.specs| <= MAX_FETCH_ARGS
            && off + |leaves| <= |EventOf(e)|
            && EventOf(e)[off..off + words] == leaves[..words]
            && EventOf(e)[off + words..off + |leaves|] == leaves[words..]
            && Generic(e)[off..off + |leaves|] == leaves
  {
    hide ValueSpecs, OwedIn, Exec, Stem, SameTable, DotFree, TypelessVar, EventOf;
    RulesCount(e.specs, e.rules);
    var specs := ValueSpecs(env, v.typ, v.name, wi);
    var leaves := ExecAll(e.ctx, e.mem, specs);
    assert e.specs[off..off + |specs|] == specs;
    assert Generic(e)[off..off + |specs|] == leaves;
    assert EventOf(e)[off..off + |specs|] == EventOf(e)[..|e.specs|][off..off + |specs|];
    assert EventOf(e)[off..off + words] == EventOf(e)[off..off + |specs|][..words];
    assert EventOf(e)[off + words..off + |specs|] == EventOf(e)[off..off + |specs|][words..];
  }

  /** Decoding an orderly variable moves both cursors behind its own leaves. */
  lemma HeadTakes(d: Decoder, e: Event, off: nat, v: Variable, wi: nat)
    requires Sent(e) && GroupAt(d.env, e.specs, off, v, wi) && Orderly(d.env, v.typ) && AbiWordCount(v.typ) > 0
    ensures var n := PlannedValue(d.env, v.typ, v.name).LeafCount();
            && |e.specs| <= MAX_FETCH_ARGS && off + n <= |e.rules| == |e.specs|
            && OwnLeaves(EventOf(e), OwnCursor(e, off), OwnOwed(e, off, v.typ))
            && var p := RenderAuto(d, PlannedValue(d.env, v.typ, v.name), EventOf(e), off, OwnCursor(e, off), e.user);
               p.cur == off + n && p.extra == OwnCursor(e, off + n)
  {
    hide ValueSpecs, IfaceOwed, OwnLeaves, OwedIn, RenderLeaves, SameTable, Stem, Exec, DotFree, TypelessVar, EventOf, Settled, OwnCursor,
         RulesFor;
    RulesCount(e.specs, e.rules);
    var value := PlannedValue(d.env, v.typ, v.name);
    ValueSpecsCount(d.env, v.typ, v.name, wi);
    var n := value.LeafCount();
    var all := EventOf(e);
    GroupOwed(d.env, e, off, v, wi);
    OwnLeavesFound(e, off, off + n);
    EventSlice(d.env, e, off, v, wi, value.wordCount);
    GroupTakes(d, e, off, v, wi, all, OwnCursor(e, off));
  }

  lemma GroupTakes(d: Decoder, e: Event, off: nat, v: Variable, wi: nat, all: seq<LeafData>, extra: nat)
    requires Sent(e) && GroupAt(d.env, e.specs, off, v, wi) && Orderly(d.env, v.typ) && AbiWordCount(v.typ) > 0
    requires extra <= |all|
    ensures var value := PlannedValue(d.env, v.typ, v.name);
            var leaves := ExecAll(e.ctx, e.mem, ValueSpecs(d.env, v.typ, v.name, wi));
            && value.wordCount <= |leaves|
            && var shown := RenderLeaves(d, value, leaves[..value.wordCount], leaves[value.wordCount..], all, extra, e.user);
               shown.extra == KernelFetch.Min(|all|, extra + |OwnOwed(e, off, v.typ)|)
  {
    hide ValueSpecs, IfaceOwed, RenderLeaves, SameTable, Stem, Exec, DotFree, TypelessVar, Settled, RulesFor;
    ValueSpecsCount(d.env, v.typ, v.name, wi);
    var value := PlannedValue(d.env, v.typ, v.name);
    var leaves := ExecAll(e.ctx, e.mem, ValueSpecs(d.env, v.typ, v.name, wi));
    if Underlying(v.typ).Iface? {
      UnderlyingFacts(v.typ);
      IfaceSpecs(d.env, v, wi);
      TypeLeafZero(e.ctx, e.mem, v.name, Underlying(v.typ).nonEmpty, Reg(wi));
      DataLeafRead(e.ctx, e.mem, v.name + ".data", Reg(Advance(wi, 1)));
      IfaceTakes(d, value, leaves[..2], leaves[2..], all, extra, e);
      SameOwed(d.env, e, off, v, wi);
    } else {
      SettledTakesNone(d, value, leaves[..value.wordCount], leaves[value.wordCount..], all, extra, e.user);
    }
  }

  lemma TypeLeafZero(ctx: KernelFetch.PtRegs, mem: Memory, name: string, nonEmpty: bool, reg: string)
    ensures var leaf := Exec(ctx, mem, TypeWordSpec(name, nonEmpty, reg));
            leaf.isNil || leaf.readError ==> ReadUint(leaf.data) == 0
  {
    KernelFetch.EmptyWord();
  }

  lemma DataLeafRead(ctx: KernelFetch.PtRegs, mem: Memory, name: string, reg: string)
    ensures !Exec(ctx, mem, WordSpec(name, 8, reg)).readError
  {
  }

  /** What an interface is owed depends on its own two words only. */
  lemma SameOwed(env: TypeEnv, e: Event, off: nat, v: Variable, wi: nat)
    requires Sent(e) && SliceAt(env, e.specs, off, v, wi) && Underlying(v.typ).Iface?
    ensures var leaves := ExecAll(e.ctx, e.mem, ValueSpecs(env, v.typ, v.name, wi));
            |leaves| == 3 && IfaceOwed(e.mem, Generic(e), off, e.kernel) == IfaceOwed(e.mem, leaves[..2], 0, e.kernel)
  {
    hide KernelFetch.RecipeLeaves, Stem, Exec, SameTable, ValueSpecs, DotFree, TypelessVar;
    IfaceSpecs(env, v, wi);
    var leaves := ExecAll(e.ctx, e.mem, ValueSpecs(env, v.typ, v.name, wi));
    EventSlice(env, e, off, v, wi, 2);
    assert Generic(e)[off] == Generic(e)[off..off + 3][0] && Generic(e)[off + 1] == Generic(e)[off..off + 3][1];
  }

  /** Before the k-th variable both cursors stand at its own leaves, if all before it are orderly. */
  lemma {:induction false} CursorsOwn(d: Decoder, e: Event, off: nat, vars: seq<Variable>, wi: nat, k: nat)
    requires Sent(e) && TailAt(d.env, e.specs, off, vars, wi) && k <= |vars|
    requires forall i | 0 <= i < k :: Orderly(d.env, vars[i].typ)
    ensures off + LeafOf(d.env, vars, k) <= |e.rules| == |e.specs| <= MAX_FETCH_ARGS
    ensures Cursors(d, AllValues(d.env, vars), k, EventOf(e), off, OwnCursor(e, off), e.user)
         == (off + LeafOf(d.env, vars, k), OwnCursor(e, off + LeafOf(d.env, vars, k)))
    decreases k
  {
    hide TailAt, GroupAt, RenderAuto, EventOf, OwnCursor, Orderly, SameTable, RulesFor, AbiWordCount, ValueCaptures, ValueSpecs, OwnOwed, OwnLeaves;
    RulesCount(e.specs, e.rules);
    TailInside(d.env, e.specs, off, vars, wi);
    if k > 0 {
      var v := vars[0];
      var n := PlannedValue(d.env, v.typ, v.name).LeafCount();
      TailSplit(d.env, e.specs, off, vars, wi);
      HeadTakes(d, e, off, v, wi);
      CursorsOwn(d, e, off + n, vars[1..], wi + AbiWordCount(v.typ), k - 1);
      assert AllValues(d.env, vars)[1..] == AllValues(d.env, vars[1..]);
    }
  }

  lemma TailInside(env: TypeEnv, specs: seq<ArgSpec>, off: nat, vars: seq<Variable>, wi: nat)
    requires TailAt(env, specs, off, vars, wi)
    ensures LaidOut(env, specs, off, vars, wi)
    ensures wi <= off <= |specs| && forall i | 0 <= i < |vars| :: AbiWordCount(vars[i].typ) > 0
  {
  }

  /** Whatever lies before it, the k-th variable is cut from its own leaves. */
  lemma {:induction false} CursorAtOwn(d: Decoder, e: Event, off: nat, vars: seq<Variable>, wi: nat, k: nat, extra: nat)
    requires Sent(e) && LaidOut(d.env, e.specs, off, vars, wi) && k <= |vars|
    ensures off <= |e.specs| <= MAX_FETCH_ARGS
    ensures Cursors(d, AllValues(d.env, vars), k, EventOf(e), off, extra, e.user).0 == off + LeafOf(d.env, vars, k)
    decreases k
  {
    hide LaidOut, SliceAt, RenderLeaves, EventOf, SameTable, RulesFor, AbiWordCount, ValueCaptures, ValueSpecs;
    RulesCount(e.specs, e.rules);
    LaidInside(d.env, e.specs, off, vars, wi);
    if k > 0 {
      var v := vars[0];
      var n := PlannedValue(d.env, v.typ, v.name).LeafCount();
      SliceSplit(d.env, e.specs, off, vars, wi);
      LaidInside(d.env, e.specs, off + n, vars[1..], wi + AbiWordCount(v.typ));
      var p := RenderAuto(d, PlannedValue(d.env, v.typ, v.name), EventOf(e), off, extra, e.user);
      CursorAtOwn(d, e, off + n, vars[1..], wi + AbiWordCount(v.typ), k - 1, p.extra);
      assert AllValues(d.env, vars)[1..] == AllValues(d.env, vars[1..]);
    }
  }

  // ---- an interface with a recipe ----

  /** An interface from its two words and its own recipe leaves. */
  lemma IfaceShown(d: Decoder, v: Variable, wi: nat, val: Bytes, ctx: KernelFetch.PtRegs, mem: Memory,
                   words: seq<LeafData>, captures: seq<LeafData>, all: seq<LeafData>, extra: nat,
                   user: RecipeTable, kernel: KernelFetch.KernelRecipes)
    requires Process(d, mem) && Covered(d.env, v.typ) && VariableHeld(v.typ, val, wi, ctx, mem) && TopPlain(d, v.typ, val, mem)
    requires wi + 2 <= |ABI_REGS| && Underlying(v.typ).Iface?
    requires words == ExecAll(ctx, mem, WordSpecs(Underlying(v.typ), v.name, wi))
    requires captures == ExecAll(ctx, mem, RegBlobs(Underlying(v.typ), v.name, wi))
    requires SameTable(user, kernel) && KernelFetch.ValidRecipes(kernel)
    requires OwnLeaves(all, extra, IfaceOwed(mem, words, 0, kernel))
    ensures var shown := RenderLeaves(d, PlannedValue(d.env, v.typ, v.name), words, captures, all, extra, user);
            && Faithful(shown.rendered, TopView(d, v.typ, val, mem))
            && shown.extra == KernelFetch.Min(|all|, extra + |IfaceOwed(mem, words, 0, kernel)|)
  {
    hide RenderValue, View, Exec, InRegisters, ApplyExtras, IfaceOwed, EncodesRel, Sound, Covered, Flattens, WordsAre,
         WordSpecs, RegBlobs, Faithful, SameTable, VariableHeld, Process;
    IfaceHeld(d.env, v.typ, val, wi, ctx, mem);
    var u := Underlying(v.typ);
    InterfaceReadable(u, v.name, wi, ctx, mem);
    HeaderFaithful(u, v.name, wi, val, ctx, mem, words);
    NilInterface(d, u, v.name, wi, val, ctx, mem, words);
    NilIsZero(u, v.name, wi, ctx, mem);
    IfaceWords(words);
    OwedWords(mem, words, kernel);
    NilFaithful(d, v.typ, val, mem);
    if ReadUint(words[0].data) != 0 {
      SnapshotShown(d, v, wi, val, ctx, mem, ConcatLeaves(words), captures, all, extra, user, kernel);
    }
  }

  /** What the snapshot of an interface shows once its recipe leaves are bound. */
  lemma SnapshotShown(d: Decoder, v: Variable, wi: nat, val: Bytes, ctx: KernelFetch.PtRegs, mem: Memory,
                      header: Bytes, captures: seq<LeafData>, all: seq<LeafData>, extra: nat,
                      user: RecipeTable, kernel: KernelFetch.KernelRecipes)
    requires Process(d, mem) && Underlying(v.typ).Iface? && wi + 2 <= |ABI_REGS| && |header| == 16 <= |val|
    requires WordsAre(ctx, mem, WordSpecs(Underlying(v.typ), v.name, wi), header, 0)
    requires Flattens(Underlying(v.typ), 0, val, header, 0) && TopPlain(d, v.typ, val, mem)
    requires captures == ExecAll(ctx, mem, RegBlobs(Underlying(v.typ), v.name, wi))
    requires SameTable(user, kernel) && KernelFetch.ValidRecipes(kernel) && ReadUint(header) != 0
    requires var typeAddr, dataPtr := ReadUint(header), ReadUint(header[8..]);
             extra <= |all| &&
             (typeAddr in kernel ==> OwnLeaves(all, extra, KernelFetch.RecipeLeaves(mem, dataPtr, kernel[typeAddr])))
    ensures var b := ApplyExtras(user, ReadUint(header), ReadUint(header[8..]), all, Binding(BindIface(header, captures), extra));
            && Faithful(RenderValue(d, v.typ, header, 0, b.chunks, 0), TopView(d, v.typ, val, mem))
            && b.extra == (if ReadUint(header) !in kernel then extra
                           else KernelFetch.Min(|all|, extra + |kernel[ReadUint(header)]|))
  {
    hide RenderValue, View, Exec, ApplyExtras, Flattens, WordsAre, WordSpecs, RegBlobs, Faithful, SameTable, OwnLeaves;
    var u := Underlying(v.typ);
    IfaceBound(d, u, v.name, wi, header, val, ctx, mem, captures);
    var bound := Binding(BindIface(header, captures), extra);
    ExtrasSound(user, kernel, mem, ReadUint(header), ReadUint(header[8..]), all, bound);
    var b := ApplyExtras(user, ReadUint(header), ReadUint(header[8..]), all, bound);
    HeldFaithful(d, u, header, val, b.chunks, mem);
    NamesAreTransparent(d, v.typ, header, b.chunks, header, captures);
  }

  lemma IfaceHeld(env: TypeEnv, t: GoType, val: Bytes, wi: nat, ctx: KernelFetch.PtRegs, mem: Memory)
    requires Covered(env, t) && VariableHeld(t, val, wi, ctx, mem) && Underlying(t).Iface?
    ensures var u := Underlying(t);
            && WellFormed(u) && AbiWordCount(u) == 2 && Size(u) == 16 <= |val|
            && InRegisters(u, 0, val, wi, ctx, mem) && (u.nonEmpty ==> ItabReadable(ctx(Reg(wi)), mem))
  {
    UnderlyingFacts(t);
  }

  lemma NilIsZero(u: GoType, name: string, wi: nat, ctx: KernelFetch.PtRegs, mem: Memory)
    requires u.Iface?
    ensures var words := ExecAll(ctx, mem, WordSpecs(u, name, wi));
            |words| == 2 && (words[0].isNil ==> ReadUint(words[0].data) == 0)
  {
    KernelFetch.EmptyWord();
  }

  lemma IfaceBound(d: Decoder, u: GoType, name: string, wi: nat, header: Bytes, val: Bytes,
                   ctx: KernelFetch.PtRegs, mem: Memory, captures: seq<LeafData>)
    requires Process(d, mem) && u.Iface? && wi + 2 <= |ABI_REGS| && |header| == 16 <= |val|
    requires WordsAre(ctx, mem, WordSpecs(u, name, wi), header, 0) && Flattens(u, 0, val, header, 0)
    requires captures == ExecAll(ctx, mem, RegBlobs(u, name, wi))
    ensures Sound(BindIface(header, captures), mem) && Agrees(u, header, Defined(val))
  {
    assert FieldMem(header, 0) == header && Drop(Defined(val), 0) == Defined(val);
    assert Flattens(u, 0, header, header, 0);
    RegPathsAgree(u, name, wi, 0, header, ctx, mem, header, 0);
    RegCapturesSound(ctx, mem, RegBlobs(u, name, wi), RegAddrs(u, header));
    RegBlobsCount(u, name, wi);
    ConsumeRegBinds(u, header, captures);
    BothFlatten(u, 0, header, val, header, 0);
  }

  lemma ExtrasSound(user: RecipeTable, kernel: KernelFetch.KernelRecipes, mem: Memory, typeAddr: nat, dataPtr: nat,
                    all: seq<LeafData>, b: Binding)
    requires SameTable(user, kernel) && KernelFetch.ValidRecipes(kernel) && Sound(b.chunks, mem)
    requires typeAddr != 0 && typeAddr in kernel ==>
               OwnLeaves(all, b.extra, KernelFetch.RecipeLeaves(mem, dataPtr, kernel[typeAddr]))
    requires b.extra <= |all|
    ensures var b' := ApplyExtras(user, typeAddr, dataPtr, all, b);
            && Sound(b'.chunks, mem)
            && b'.extra == (if typeAddr == 0 || typeAddr !in kernel then b.extra
                            else KernelFetch.Min(|all|, b.extra + |kernel[typeAddr]|))
  {
    if typeAddr != 0 && typeAddr in user {
      var owed := KernelFetch.RecipeLeaves(mem, dataPtr, kernel[typeAddr]);
      forall j | 0 <= j < |kernel[typeAddr]| && b.extra + j < |all|
        ensures all[b.extra + j] == KernelFetch.RelLeaf(mem, dataPtr, kernel[typeAddr][j])
      {
        assert all[b.extra + j] == owed[j];
      }
      BindSound(user[typeAddr], kernel[typeAddr], mem, dataPtr, all, b);
    }
  }

  // ---- end to end ----

  lemma SlotsInside(specs: seq<ArgSpec>, rules: seq<KernelFetch.KernelRule>)
    requires RulesFor(specs, rules)
    ensures TypeSlotsInside(rules, |specs|)
  {
    hide HasSuffix, TrimSuffix, TypeSlot, ToFetchArg;
    forall i | 0 <= i < |rules|
      ensures rules[i].typeIdx < |specs|
    {
      var args := ToFetchArgs(specs);
      PlainArg(specs[i]);
      TypeSlotFinds(args, TrimSuffix(args[i].name, ".data"));
      SmallIndex(Marked(args, i).typeIndex);
    }
  }

  /** The event the probe sends is the one the decoder is reasoned about with. */
  lemma EventSent(e: Event, args: seq<FetchArg>)
    requires Loaded(e.specs, args, e.rules) && SameTable(e.user, e.kernel) && AllInAbi(e.specs) && |e.specs| <= MAX_FETCH_ARGS
    ensures Sent(e) && |e.rules| <= MAX_FETCH_ARGS && (forall r <- e.rules :: r.Valid())
    ensures KernelFetch.WithRecipes(e.mem, e.rules, 0, KernelFetch.FetchAll(e.ctx, e.mem, e.rules), e.kernel) == EventOf(e)
  {
    hide Loaded, OwedIn, RulesFor, AllInAbi, SameTable, Exec, KernelFetch.FetchOne, KernelFetch.WithRecipes;
    PlanExecuted(e.ctx, e.mem, e.specs, args, e.rules);
    LoadedRules(e.specs, args, e.rules);
    SameTableValid(e.user, e.kernel);
    RulesCount(e.specs, e.rules);
    SlotsInside(e.specs, e.rules);
    var leaves := Generic(e);
    assert leaves + [] == leaves;
    AppendedInOrder(e.mem, e.rules, leaves, [], 0, e.kernel);
    OwedAll(e, 0);
  }
}
