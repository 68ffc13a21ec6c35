/** Type recipes: the extra copies the probe makes for a known interface type, and where the decoder
 *  binds them. */
module Recipes {
  import opened Wrappers
  import opened Words
  import opened GoTypes
  import opened FetchRules
  import opened FetchPlan
  import opened TargetMemory
  import KernelFetch
  import opened Snapshot
  import opened Render
  import opened LiveView
  import opened TypeRecipe

  // ---- installing a recipe (`SetTypeRecipe`) ----

  ghost predicate EncodesRel(k: KernelFetch.KernelRelRule, r: RelRule)
  {
    && k.Valid()
    && k.size == KernelFetch.Uint8(r.size) && k.length == KernelFetch.Uint8(|r.steps|)
    && forall j | 0 <= j < 8 && j < |r.steps| ::
         Step(k.offsets[j], k.derefs[j]) == KernelFetch.Int16Step(r.steps[j])
  }

  method SetTypeRecipe(rules: seq<RelRule>) returns (rec: seq<KernelFetch.KernelRelRule>)
    ensures |rec| == KernelFetch.Min(|rules|, MAX_TYPE_RECIPE_RULES)
    ensures forall i | 0 <= i < |rec| :: EncodesRel(rec[i], rules[i])
  {
    var n := if |rules| > MAX_TYPE_RECIPE_RULES then MAX_TYPE_RECIPE_RULES else |rules|;
    rec := [];
    for i := 0 to n
      invariant |rec| == i
      invariant forall m | 0 <= m < i :: EncodesRel(rec[m], rules[m])
    {
      var k := EncodeRel(rules[i]);
      rec := rec + [k];
    }
  }

  method EncodeRel(r: RelRule) returns (k: KernelFetch.KernelRelRule)
    ensures EncodesRel(k, r)
  {
    hide KernelFetch.Int16, KernelFetch.Uint8;
    var offsets: seq<int> := [0, 0, 0, 0, 0, 0, 0, 0];
    var derefs := [false, false, false, false, false, false, false, false];
    var j := 0;
    while j < |r.steps|
      invariant 0 <= j <= |r.steps| && j <= 8 && |offsets| == 8 && |derefs| == 8
      invariant forall m | 0 <= m < j :: Step(offsets[m], derefs[m]) == KernelFetch.Int16Step(r.steps[m])
    {
      if j >= 8 {
        break;
      }
      offsets := offsets[j := KernelFetch.Int16(r.steps[j].offset)];
      derefs := derefs[j := r.steps[j].deref];
      j := j + 1;
    }
    k := KernelFetch.KernelRelRule(KernelFetch.Uint8(r.size), KernelFetch.Uint8(|r.steps|), offsets, derefs);
  }

  /** The rule survives its encoding: at most eight steps, 16-bit offsets, one leaf's size. */
  predicate Fits(r: RelRule)
  {
    && r.size == AUTO_STRING_SIZE
    && |r.steps| <= 8
    && forall j | 0 <= j < |r.steps| :: -0x8000 <= r.steps[j].offset < 0x8000
  }

  /** How deep structs are nested in a type. */
  function Depth(t: GoType): nat
  {
    match t
    case Named(b) => Depth(b)
    case Struct(_, fields, _) => 1 + FieldsDepth(fields)
    case _ => 0
  }

  function FieldsDepth(fields: seq<Field>): nat
  {
    if fields == [] then 0
    else if Depth(fields[0].typ) > FieldsDepth(fields[1..]) then Depth(fields[0].typ)
    else FieldsDepth(fields[1..])
  }

  predicate Near(steps: seq<Step>)
  {
    forall j | 0 <= j < |steps| :: -0x8000 <= steps[j].offset < 0x8000
  }

  /** Every rule has a path this short, with offsets in range, and fills one leaf. */
  predicate AllShort(rules: seq<RelRule>, n: nat)
  {
    forall i | 0 <= i < |rules| :: rules[i].size == AUTO_STRING_SIZE && |rules[i].steps| <= n && Near(rules[i].steps)
  }

  lemma {:induction false} CapturesShort(t: GoType, steps: seq<Step>, n: nat)
    requires WellFormed(t) && Size(t) < 0x8000 && Near(steps) && |steps| + Depth(t) < n
    ensures AllShort(RelMemCaptures(t, steps), n)
    decreases t
  {
    match t
    case Named(b) => CapturesShort(b, steps, n);
    case Struct(_, fields, size) => FieldCapturesShort(fields, size, steps, n);
    case _ =>
  }

  lemma {:induction false} FieldCapturesShort(fields: seq<Field>, size: int, steps: seq<Step>, n: nat)
    requires (forall f <- fields :: FieldFits(f, size) && WellFormed(f.typ)) && size < 0x8000
    requires Near(steps) && |steps| + 1 + FieldsDepth(fields) < n
    ensures AllShort(FieldRelMemCaptures(fields, steps), n)
    decreases fields
  {
    if fields != [] {
      var f := fields[0];
      assert FieldFits(f, size);
      WellFormedSize(f.typ);
      CapturesShort(f.typ, AppendStep(steps, f.offset, false), n);
      FieldCapturesShort(fields[1..], size, steps, n);
    }
  }

  /** What is compiled fits, for types under 32 KiB with structs nested at most seven deep. */
  lemma CompiledRecipeFits(env: TypeEnv, t: GoType)
    requires var u := Underlying(t);
             var target := if u.Ptr? then env(u.target) else u;
             WellFormed(target) && Size(target) < 0x8000 && Depth(target) <= 7
    ensures forall i | 0 <= i < |CompileTypeRecipe(env, t)| :: Fits(CompileTypeRecipe(env, t)[i])
  {
    hide RelMemCaptures, Depth, IsDirect;
    var u := Underlying(t);
    var target := if u.Ptr? then env(u.target) else u;
    CapturesShort(target, [], 8);
    PointerIsDirect(u);
  }

  lemma PointerIsDirect(u: GoType)
    ensures u.Ptr? ==> IsDirect(u)
  {
  }

  /** An encoded rule of one leaf's size makes the probe take the rule's own steps if and only if
   *  the rule fits; otherwise steps are cut off or offsets wrapped. */
  lemma FittingRule(k: KernelFetch.KernelRelRule, r: RelRule)
    requires EncodesRel(k, r) && r.size == AUTO_STRING_SIZE
    ensures k.size == AUTO_STRING_SIZE && (k.Steps() == r.steps <==> Fits(r))
  {
    if |r.steps| <= 8 {
      assert KernelFetch.Uint8(|r.steps|) == |r.steps| == |k.Steps()|;
      forall j | 0 <= j < |r.steps|
        ensures k.Steps()[j] == r.steps[j] <==> -0x8000 <= r.steps[j].offset < 0x8000
      {
        assert k.Steps()[j] == KernelFetch.Int16Step(r.steps[j]);
      }
      if Fits(r) {
        assert k.Steps() == r.steps;
      } else {
        var j :| 0 <= j < |r.steps| && !(-0x8000 <= r.steps[j].offset < 0x8000);
        assert k.Steps()[j] != r.steps[j];
      }
    } else {
      assert |k.Steps()| <= 8;
    }
  }

  /** A string nested `n` structs deep, each time at offset `gap`. */
  function Nest(n: nat, gap: nat): GoType
  {
    if n == 0 then Str else Struct([], [Field([], true, gap, Nest(n - 1, gap))], Size(Nest(n - 1, gap)) + gap)
  }

  function Adds(n: nat, gap: nat): (steps: seq<Step>)
    ensures |steps| == n
  {
    seq(n, _ => Step(gap, false))
  }

  lemma {:induction false} NestCaptures(n: nat, gap: nat, steps: seq<Step>)
    requires gap > 0
    ensures RelMemCaptures(Nest(n, gap), steps) == [RelRule(AUTO_STRING_SIZE, steps + Adds(n, gap) + [Step(0, true)])]
    ensures WellFormed(Nest(n, gap)) && Depth(Nest(n, gap)) == n && Size(Nest(n, gap)) == 16 + n * gap && !HasPtr(Nest(n, gap))
    decreases n
  {
    hide KernelFetch.Int16;
    if n > 0 {
      var inner := Nest(n - 1, gap);
      var fields := [Field([], true, gap, inner)];
      NestCaptures(n - 1, gap, steps + [Step(gap, false)]);
      assert fields[1..] == [] && FieldRelMemCaptures([], steps) == [];
      assert FieldRelMemCaptures(fields, steps) == RelMemCaptures(inner, steps + [Step(gap, false)]) + [];
      assert [Step(gap, false)] + Adds(n - 1, gap) == Adds(n, gap);
      assert steps + [Step(gap, false)] + Adds(n - 1, gap) == steps + ([Step(gap, false)] + Adds(n - 1, gap));
      assert FieldsDepth(fields) == Depth(inner);
      MulStep(n, gap);
    } else {
      assert steps + Adds(0, gap) == steps;
    }
  }

  lemma MulStep(n: nat, gap: nat)
    requires n > 0
    ensures (n - 1) * gap + gap == n * gap
  {
  }

  /** Both bounds of `CompiledRecipeFits` are needed: the recipe of a string nested `n` deep survives
   *  the encoding if and only if `n` is at most seven and the offsets fit 16 bits. */
  lemma NestedRecipeFitsIff(env: TypeEnv, n: nat, gap: nat)
    requires gap > 0
    ensures var rules := CompileTypeRecipe(env, Nest(n, gap));
            |rules| == 1 && (Fits(rules[0]) <==> n == 0 || (n <= 7 && gap < 0x8000))
  {
    hide RelMemCaptures;
    var t := Nest(n, gap);
    NestCaptures(n, gap, []);
    NestIndirect(n, gap);
    var steps := [] + Adds(n, gap) + [Step(0, true)];
    assert CompileTypeRecipe(env, t) == [RelRule(AUTO_STRING_SIZE, steps)];
    assert n > 0 ==> steps[0].offset == gap;
  }

  lemma NestIndirect(n: nat, gap: nat)
    requires gap > 0 && Size(Nest(n, gap)) == 16 + n * gap
    ensures !IsDirect(Nest(n, gap)) && Underlying(Nest(n, gap)) == Nest(n, gap) && !Nest(n, gap).Ptr?
  {
    assert n * gap >= 0;
  }

  /** Both sides hold the same recipes, and all of them fit. */
  ghost predicate SameTable(user: RecipeTable, kernel: KernelFetch.KernelRecipes)
  {
    && kernel.Keys == user.Keys
    && forall t <- user ::
         && |kernel[t]| == |user[t]| <= MAX_TYPE_RECIPE_RULES
         && forall i | 0 <= i < |user[t]| :: EncodesRel(kernel[t][i], user[t][i]) && Fits(user[t][i])
  }

  lemma SameTableValid(user: RecipeTable, kernel: KernelFetch.KernelRecipes)
    requires SameTable(user, kernel)
    ensures KernelFetch.ValidRecipes(kernel)
  {
    forall t | t in kernel
      ensures |kernel[t]| <= 4 && forall r <- kernel[t] :: r.Valid()
    {
      assert t in user;
      forall r | r in kernel[t]
        ensures r.Valid()
      {
        var i :| 0 <= i < |kernel[t]| && kernel[t][i] == r;
        assert EncodesRel(kernel[t][i], user[t][i]);
      }
    }
  }

  // ---- one leaf ----

  lemma ReadAnywhere(mem: Memory, addr: int, n: nat)
    ensures ReadUser(mem, addr, n) == ReadUser(mem, addr % ADDRESSES, n)
  {
    forall i | 0 <= i < n
      ensures At(addr, i) == At(addr % ADDRESSES, i)
    {
      AtShift(addr, 0, i);
    }
    if Readable(mem, addr, n) {
      assert Readable(mem, addr % ADDRESSES, n);
      assert ReadUser(mem, addr, n).value == ReadUser(mem, addr % ADDRESSES, n).value;
    } else {
      assert !Readable(mem, addr % ADDRESSES, n);
    }
  }

  /** A path the decoder follows through a sound snapshot leads where the probe's own loads led. */
  lemma {:induction false} PathsAgree(mem: Memory, base: nat, steps: seq<Step>, chunks: seq<Chunk>)
    requires Sound(chunks, mem)
    ensures var addr := EvalRel(base, steps, chunks);
            addr == 0 || KernelFetch.Walk(mem, base, steps) == Some(addr) || KernelFetch.Walk(mem, base, steps) == None
    decreases |steps|
  {
    if steps != [] {
      var a := (base + steps[0].offset) % ADDRESSES;
      if !steps[0].deref {
        PathsAgree(mem, a, steps[1..], chunks);
      } else {
        ReadAnywhere(mem, base + steps[0].offset, 8);
        if Read(chunks, a, 8).Some? {
          ReadSound(chunks, a, 8, mem);
          PathsAgree(mem, LittleEndian(Read(chunks, a, 8).value), steps[1..], chunks);
        }
      }
    }
  }

  /** A recipe leaf is bound at the very address it was copied from, or nowhere. */
  lemma LeafBoundWhereRead(mem: Memory, base: nat, r: RelRule, k: KernelFetch.KernelRelRule, chunks: seq<Chunk>)
    requires Sound(chunks, mem) && EncodesRel(k, r) && Fits(r)
    ensures var leaf := KernelFetch.RelLeaf(mem, base, k);
            var addr := EvalRel(base, r.steps, chunks);
            || Put(addr, leaf) == []
            || (&& Put(addr, leaf) == [Chunk(addr, leaf.data)]
                && KernelFetch.Walk(mem, base, r.steps) == Some(addr)
                && ReadUser(mem, addr, AUTO_STRING_SIZE) == Some(leaf.data))
    ensures Sound(Put(EvalRel(base, r.steps, chunks), KernelFetch.RelLeaf(mem, base, k)), mem)
  {
    hide EvalRel, KernelFetch.KernelRelRule.Steps, KernelFetch.Walk;
    FittingRule(k, r);
    PathsAgree(mem, base, r.steps, chunks);
    var leaf := KernelFetch.RelLeaf(mem, base, k);
    if !leaf.readError && !leaf.isNil {
      var addr := KernelFetch.Walk(mem, base, r.steps).value;
      assert ReadUser(mem, addr, AUTO_STRING_SIZE).Some?;
      var b := ReadUser(mem, addr, AUTO_STRING_SIZE).value;
      assert b + Zeros(0) == b && leaf.data == b + Zeros(0);
      assert SoundChunk(Chunk(addr, leaf.data), mem) by {
        forall i | 0 <= i < |leaf.data|
          ensures LiveByte(mem, At(addr, i)) == Some(leaf.data[i])
        {
        }
      }
    }
  }

  // ---- one interface ----

  /** The leaves from `from` on are a recipe's, in order, as far as the event had room. */
  ghost predicate RecipeAt(mem: Memory, dataPtr: nat, recipe: seq<KernelFetch.KernelRelRule>, all: seq<LeafData>, from: nat)
    requires forall r <- recipe :: r.Valid()
  {
    forall j | 0 <= j < |recipe| && from + j < |all| :: all[from + j] == KernelFetch.RelLeaf(mem, dataPtr, recipe[j])
  }

  ghost predicate SameRecipe(rules: seq<RelRule>, recipe: seq<KernelFetch.KernelRelRule>)
  {
    |recipe| == |rules| && forall i | 0 <= i < |rules| :: EncodesRel(recipe[i], rules[i]) && Fits(rules[i])
  }

  lemma SoundAppend(a: seq<Chunk>, b: seq<Chunk>, mem: Memory)
    requires Sound(a, mem) && Sound(b, mem)
    ensures Sound(a + b, mem)
  {
  }

  /** Binding a recipe's own leaves keeps the snapshot true and takes exactly those leaves. */
  lemma {:induction false} BindSound(rules: seq<RelRule>, recipe: seq<KernelFetch.KernelRelRule>, mem: Memory, dataPtr: nat,
                                     all: seq<LeafData>, b: Binding)
    requires SameRecipe(rules, recipe) && (forall r <- recipe :: r.Valid())
    requires Sound(b.chunks, mem) && b.extra <= |all| && RecipeAt(mem, dataPtr, recipe, all, b.extra)
    ensures var b' := BindRecipe(rules, dataPtr, all, b);
            Sound(b'.chunks, mem) && b'.extra == KernelFetch.Min(|all|, b.extra + |rules|)
    decreases |rules|
  {
    hide EvalRel, EncodesRel, Fits, Sound, KernelFetch.RelLeaf;
    if rules != [] && b.extra < |all| {
      assert all[b.extra + 0] == KernelFetch.RelLeaf(mem, dataPtr, recipe[0]);
      LeafBoundWhereRead(mem, dataPtr, rules[0], recipe[0], b.chunks);
      var addr := EvalRel(dataPtr, rules[0].steps, b.chunks);
      var next := Binding(b.chunks + Put(addr, all[b.extra]), b.extra + 1);
      SoundAppend(b.chunks, Put(addr, all[b.extra]), mem);
      forall j | 0 <= j < |recipe[1..]| && next.extra + j < |all|
        ensures all[next.extra + j] == KernelFetch.RelLeaf(mem, dataPtr, recipe[1..][j])
      {
        assert all[b.extra + (j + 1)] == KernelFetch.RelLeaf(mem, dataPtr, recipe[j + 1]);
      }
      BindSound(rules[1..], recipe[1..], mem, dataPtr, all, next);
    }
  }

  // ---- what the probe appends ----

  /** What rule `i` adds to the event, were there room. */
  function Owed(mem: Memory, rules: seq<KernelFetch.KernelRule>, leaves: seq<LeafData>, i: nat,
                recipes: KernelFetch.KernelRecipes): seq<LeafData>
    requires KernelFetch.ValidRecipes(recipes) && i < |rules|
  {
    if !KernelFetch.HasRecipe(rules[i], leaves, recipes) then []
    else KernelFetch.RecipeLeaves(mem, KernelFetch.LoadArgWord(leaves, i),
                                  recipes[KernelFetch.LoadArgWord(leaves, rules[i].typeIdx)])
  }

  function OwedFrom(mem: Memory, rules: seq<KernelFetch.KernelRule>, leaves: seq<LeafData>, i: nat,
                    recipes: KernelFetch.KernelRecipes): seq<LeafData>
    requires KernelFetch.ValidRecipes(recipes)
    decreases |rules| - i
  {
    if i >= |rules| then []
    else Owed(mem, rules, leaves, i, recipes) + OwedFrom(mem, rules, leaves, i + 1, recipes)
  }

  lemma NothingToTake<T>(n: nat)
    ensures KernelFetch.Take<T>([], n) == []
  {
  }

  lemma TakeSplit<T>(a: seq<T>, b: seq<T>, n: nat)
    ensures |KernelFetch.Take(a, n)| <= n
    ensures KernelFetch.Take(a + b, n) == KernelFetch.Take(a, n) + KernelFetch.Take(b, n - |KernelFetch.Take(a, n)|)
  {
  }

  /** Appended leaves never change what later rules see. */
  lemma OwedStable(mem: Memory, rules: seq<KernelFetch.KernelRule>, leaves: seq<LeafData>, more: seq<LeafData>, i: nat,
                   recipes: KernelFetch.KernelRecipes)
    requires KernelFetch.ValidRecipes(recipes) && i < |rules| <= |leaves| && rules[i].typeIdx < |leaves|
    ensures Owed(mem, rules, leaves + more, i, recipes) == Owed(mem, rules, leaves, i, recipes)
  {
    hide KernelFetch.RecipeLeaves;
  }

  predicate TypeSlotsInside(rules: seq<KernelFetch.KernelRule>, n: nat)
  {
    forall i | 0 <= i < |rules| :: rules[i].typeIdx < n
  }

  /** The event is the rules' own leaves, then the recipes' in rule order, eight leaves in all. */
  lemma {:induction false} AppendedInOrder(mem: Memory, rules: seq<KernelFetch.KernelRule>, leaves: seq<LeafData>, more: seq<LeafData>,
                                           i: nat, recipes: KernelFetch.KernelRecipes)
    requires KernelFetch.ValidRecipes(recipes) && |rules| <= |leaves| && |leaves + more| <= MAX_FETCH_ARGS
    requires (forall a <- leaves :: a.Valid()) && forall a <- more :: a.Valid()
    requires TypeSlotsInside(rules, |leaves|)
    ensures KernelFetch.WithRecipes(mem, rules, i, leaves + more, recipes)
         == leaves + more + KernelFetch.Take(OwedFrom(mem, rules, leaves, i, recipes), MAX_FETCH_ARGS - |leaves + more|)
    decreases |rules| - i
  {
    hide Owed, KernelFetch.AfterRule, KernelFetch.Take;
    NothingToTake<LeafData>(MAX_FETCH_ARGS - |leaves + more|);
    assert leaves + more + [] == leaves + more;
    if i < |rules| {
      var owed := Owed(mem, rules, leaves, i, recipes);
      var rest := OwedFrom(mem, rules, leaves, i + 1, recipes);
      var room := MAX_FETCH_ARGS - |leaves + more|;
      OneAppended(mem, rules, i, leaves, more, recipes);
      TakeSplit(owed, rest, room);
      var added := KernelFetch.Take(owed, room);
      assert leaves + more + added == leaves + (more + added);
      var last := KernelFetch.Take(rest, room - |added|);
      assert leaves + (more + added) + last == leaves + more + (added + last);
      OwedValid(mem, rules, leaves, i, recipes);
      TakeFrom(owed, room);
      AppendedInOrder(mem, rules, leaves, more + added, i + 1, recipes);
    }
  }

  lemma TakeFrom<T>(s: seq<T>, n: nat)
    ensures forall x <- KernelFetch.Take(s, n) :: x in s
  {
  }

  lemma OwedValid(mem: Memory, rules: seq<KernelFetch.KernelRule>, leaves: seq<LeafData>, i: nat,
                  recipes: KernelFetch.KernelRecipes)
    requires KernelFetch.ValidRecipes(recipes) && i < |rules|
    ensures forall a <- Owed(mem, rules, leaves, i, recipes) :: a.Valid()
  {
  }

  lemma OneAppended(mem: Memory, rules: seq<KernelFetch.KernelRule>, i: nat, leaves: seq<LeafData>, more: seq<LeafData>,
                    recipes: KernelFetch.KernelRecipes)
    requires KernelFetch.ValidRecipes(recipes) && i < |rules| <= |leaves| && |leaves + more| <= MAX_FETCH_ARGS
    requires forall a <- leaves + more :: a.Valid()
    requires TypeSlotsInside(rules, |leaves|)
    ensures KernelFetch.AfterRule(mem, rules, i, leaves + more, recipes)
         == leaves + more + KernelFetch.Take(Owed(mem, rules, leaves, i, recipes), MAX_FETCH_ARGS - |leaves + more|)
  {
    hide KernelFetch.RecipeLeaves;
    OwedStable(mem, rules, leaves, more, i, recipes);
    assert leaves + more + [] == leaves + more;
  }
}
