/** The decoder as it runs: cursors over the leaf list, a snapshot filled as the type is walked. */
module Decode {
  import opened Wrappers
  import opened Words
  import opened GoTypes
  import opened FetchRules
  import opened FetchPlan
  import opened KernelFetch
  import opened Snapshot
  import opened Scatter
  import opened TypeRecipe
  import opened Render

  /** `RenderValuesOpts`. */
  method RenderValues(d: Decoder, values: seq<Value>, all: seq<LeafData>, recipes: RecipeTable)
    returns (parts: seq<NamedValue>)
    ensures parts == RenderList(d, values, all, 0, LeafTotal(values), recipes)
  {
    hide RenderAuto;
    var generic: nat := 0;
    for i := 0 to |values|
      invariant generic + LeafTotal(values[i..]) == LeafTotal(values)
    {
      assert values[i..][1..] == values[i + 1..];
      generic := generic + values[i].LeafCount();
    }
    assert values[|values|..] == [];
    var extra: nat, cur: nat := generic, 0;
    parts := [];
    ghost var todo := RenderList(d, values, all, 0, generic, recipes);
    for i := 0 to |values|
      invariant cur <= |all|
      invariant todo == RenderList(d, values[i..], all, cur, extra, recipes)
      invariant parts + todo == RenderList(d, values, all, 0, LeafTotal(values), recipes)
    {
      assert values[i..][0] == values[i] && values[i..][1..] == values[i + 1..];
      var p := RenderOne(d, values[i], all, cur, extra, recipes);
      todo := RenderList(d, values[i + 1..], all, p.cur, p.extra, recipes);
      parts := parts + [NamedValue(values[i].name, p.rendered)];
      cur, extra := p.cur, p.extra;
    }
  }

  /** `renderAuto`. */
  method RenderOne(d: Decoder, v: Value, all: seq<LeafData>, cur: nat, extra: nat, recipes: RecipeTable)
    returns (p: Progress)
    requires cur <= |all|
    ensures p == RenderAuto(d, v, all, cur, extra, recipes)
  {
    hide RenderValue, ConcatLeaves, ConsumeReg, ScatteredImage, RenderPointer;
    var n := v.LeafCount();
    if n == 0 {
      return Progress(Unavailable, cur, extra);
    }
    if cur + n > |all| {
      return Progress(Unavailable, |all|, extra);
    }
    var words := all[cur..cur + v.wordCount];
    var captures := all[cur + v.wordCount..cur + n];
    var shown := ShowLeaves(d, v, words, captures, all, extra, recipes);
    return Progress(shown.rendered, cur + n, shown.extra);
  }

  method ShowLeaves(d: Decoder, v: Value, words: seq<LeafData>, captures: seq<LeafData>,
                    all: seq<LeafData>, extra: nat, recipes: RecipeTable) returns (s: Shown)
    ensures s == RenderLeaves(d, v, words, captures, all, extra, recipes)
  {
    hide RenderValue, ConcatLeaves, ConsumeReg, ScatteredImage;
    var t := Underlying(v.typ);
    if t.Iface? && |words| > 0 && (words[0].isNil || ReadUint(words[0].data) == 0) {
      return Shown(Nil, extra);
    }
    for i := 0 to |words|
      invariant forall j | 0 <= j < i :: !words[j].readError
    {
      if words[i].readError {
        return Shown(Unavailable, extra);
      }
    }
    if t.Ptr? && |captures| > 0 && captures[0].isNil {
      return Shown(Nil, extra);
    }
    var header := ConcatLeaves(words);
    if |header| == 0 {
      return Shown(Unavailable, extra);
    }
    if t.Ptr? {
      s := ShowPointer(d, t.target, ReadUint(header), captures, all, extra, recipes);
    } else {
      s := ShowHeader(d, v, t, header, captures, all, extra, recipes);
    }
  }

  /** Every kind but a pointer. */
  method ShowHeader(d: Decoder, v: Value, t: GoType, header: Bytes, captures: seq<LeafData>,
                    all: seq<LeafData>, extra: nat, recipes: RecipeTable) returns (s: Shown)
    requires t == Underlying(v.typ) && !t.Ptr?
    ensures s == HeaderShown(d, v, t, header, captures, all, extra, recipes)
  {
    hide RenderValue;
    var snap := new MemSnapshot();
    match t
    case Struct(_, _, _) =>
      var img := ScatterWords(v.typ, header);
      var rest := snap.ConsumeRegCaptures(v.typ, img, captures);
      assert snap.chunks == ConsumeReg(v.typ, img, captures).chunks;
      s := Shown(RenderValue(d, v.typ, img, 0, snap.chunks, 0), extra);
    case Iface(_) =>
      snap.BindIfaceCaptures(header, captures);
      assert snap.chunks == BindIface(header, captures);
      var extra' := extra;
      if |header| >= 16 {
        extra' := ApplyRecipeExtras(snap, recipes, ReadUint(header), ReadUint(header[8..]), all, extra);
      }
      s := Shown(RenderValue(d, v.typ, header, 0, snap.chunks, 0), extra');
    case Str =>
      if |captures| > 0 {
        snap.PutLeaf(ReadUint(header), captures[0]);
      }
      assert snap.chunks == BindHead(header, captures);
      s := Shown(RenderValue(d, v.typ, header, 0, snap.chunks, 0), extra);
    case Slice(_, _) =>
      if |captures| > 0 {
        snap.PutLeaf(ReadUint(header), captures[0]);
      }
      assert snap.chunks == BindHead(header, captures);
      s := Shown(RenderValue(d, v.typ, header, 0, snap.chunks, 0), extra);
    case Scalar(_, _) => s := Shown(RenderValue(d, v.typ, header, 0, snap.chunks, 0), extra);
    case Opaque(_) => s := Shown(RenderValue(d, v.typ, header, 0, snap.chunks, 0), extra);
  }

  method ShowPointer(d: Decoder, id: TypeId, ptr: nat, captures: seq<LeafData>,
                     all: seq<LeafData>, extra: nat, recipes: RecipeTable) returns (s: Shown)
    ensures s == RenderPointer(d, id, ptr, captures, all, extra, recipes)
  {
    hide RenderValue;
    if ptr == 0 {
      return Shown(Nil, extra);
    }
    if !IsCapturedStruct(d.env(id)) {
      return Shown(Address(ptr), extra);
    }
    if |captures| == 0 || captures[0].readError {
      return Shown(Unavailable, extra);
    }
    var snap := new MemSnapshot();
    var obj := captures[0].data;
    snap.PutLeaf(ptr, captures[0]);
    var rest := snap.ConsumeMemCaptures(d.env(id), obj, captures[1..]);
    assert snap.chunks == Put(ptr, captures[0]) + ConsumeMem(d.env(id), obj, captures[1..]).chunks;
    var extra' := ApplyNestedRecipes(snap, recipes, d.env(id), obj, all, extra);
    return Shown(Ref(RenderValue(d, d.env(id), obj, ptr, snap.chunks, 0)), extra');
  }

  method EvalPath(snap: MemSnapshot, base: nat, steps: seq<Step>) returns (addr: nat)
    ensures addr == EvalRel(base, steps, snap.chunks)
  {
    addr := base;
    for i := 0 to |steps|
      invariant EvalRel(base, steps, snap.chunks) == EvalRel(addr, steps[i..], snap.chunks)
    {
      assert steps[i..][1..] == steps[i + 1..];
      var a := (addr + steps[i].offset) % ADDRESSES;
      if steps[i].deref {
        var w := snap.ReadAt(a, 8);
        if w.None? {
          return 0;
        }
        addr := LittleEndian(w.value);
      } else {
        addr := a;
      }
    }
    assert steps[|steps|..] == [];
  }

  method ApplyRecipeExtras(snap: MemSnapshot, recipes: RecipeTable, typeAddr: nat, dataPtr: nat,
                           all: seq<LeafData>, extra: nat) returns (extra': nat)
    modifies snap
    ensures Binding(snap.chunks, extra') == ApplyExtras(recipes, typeAddr, dataPtr, all, Binding(old(snap.chunks), extra))
  {
    extra' := extra;
    if typeAddr == 0 || typeAddr !in recipes {
      return;
    }
    var rules := recipes[typeAddr];
    for i := 0 to |rules|
      invariant BindRecipe(rules[i..], dataPtr, all, Binding(snap.chunks, extra'))
             == BindRecipe(rules, dataPtr, all, Binding(old(snap.chunks), extra))
    {
      assert rules[i..][1..] == rules[i + 1..];
      if extra' >= |all| {
        return;
      }
      var addr := EvalPath(snap, dataPtr, rules[i].steps);
      snap.PutLeaf(addr, all[extra']);
      extra' := extra' + 1;
    }
    assert rules[|rules|..] == [];
  }

  method ApplyNestedRecipes(snap: MemSnapshot, recipes: RecipeTable, t: GoType, mem: Bytes,
                            all: seq<LeafData>, extra: nat) returns (extra': nat)
    modifies snap
    ensures Binding(snap.chunks, extra') == ApplyNested(recipes, t, mem, all, Binding(old(snap.chunks), extra))
    decreases t
  {
    match t
    case Named(u) =>
      extra' := ApplyNestedRecipes(snap, recipes, u, mem, all, extra);
    case Iface(nonEmpty) =>
      var typeAddr := FirstWord(mem);
      if nonEmpty && typeAddr != 0 {
        var w := snap.ReadAt((typeAddr + 8) % ADDRESSES, 8);
        if w.Some? {
          typeAddr := LittleEndian(w.value);
        }
      }
      extra' := ApplyRecipeExtras(snap, recipes, typeAddr, SecondWord(mem), all, extra);
    case Struct(_, fields, _) =>
      extra' := extra;
      for i := 0 to |fields|
        invariant ApplyNestedFields(recipes, fields[i..], mem, all, Binding(snap.chunks, extra'))
               == ApplyNestedFields(recipes, fields, mem, all, Binding(old(snap.chunks), extra))
      {
        assert fields[i..][1..] == fields[i + 1..];
        extra' := ApplyNestedRecipes(snap, recipes, fields[i].typ, FieldMem(mem, fields[i].offset), all, extra');
      }
      assert fields[|fields|..] == [];
    case _ =>
      extra' := extra;
  }
}
