/** Type recipes as userspace holds them (`recipe.go`). */
module TypeRecipe {
  import opened GoTypes
  import opened FetchRules

  /** One copy relative to an interface's data pointer. */
  datatype RelRule = RelRule(size: nat, steps: seq<Step>)

  type RecipeTable = map<nat, seq<RelRule>>

  const MAX_TYPE_RECIPE_RULES := 4

  /** The table has something to copy for the type. A learned type's recipe is often empty, and then
   *  neither side does anything for it. */
  predicate HasRules(recipes: RecipeTable, typeAddr: nat)
  {
    typeAddr != 0 && typeAddr in recipes && recipes[typeAddr] != []
  }

  function AppendStep(steps: seq<Step>, offset: int, deref: bool): seq<Step>
  {
    if offset == 0 && !deref then steps else steps + [Step(offset, deref)]
  }

  function RelMemCaptures(t: GoType, steps: seq<Step>): seq<RelRule>
    decreases t
  {
    match t
    case Named(b) => RelMemCaptures(b, steps)
    case Str => [RelRule(AUTO_STRING_SIZE, AppendStep(steps, 0, true))]
    case Slice(_, _) => [RelRule(AUTO_STRING_SIZE, AppendStep(steps, 0, true))]
    case Struct(_, fields, _) => FieldRelMemCaptures(fields, steps)
    case _ => []
  }

  function FieldRelMemCaptures(fields: seq<Field>, steps: seq<Step>): seq<RelRule>
    decreases fields
  {
    if fields == [] then []
    else
      RelMemCaptures(fields[0].typ, AppendStep(steps, fields[0].offset, false))
      + FieldRelMemCaptures(fields[1..], steps)
  }

  /** `CompileTypeRecipe`. */
  function CompileTypeRecipe(env: TypeEnv, t: GoType): (rules: seq<RelRule>)
    ensures |rules| <= MAX_TYPE_RECIPE_RULES
  {
    var u := Underlying(t);
    var all :=
      if !IsDirect(u) then RelMemCaptures(u, [])
      else if u.Ptr? then RelMemCaptures(env(u.target), [])
      else [];
    if |all| > MAX_TYPE_RECIPE_RULES then all[..MAX_TYPE_RECIPE_RULES] else all
  }
}

/** Rendering: from fetched leaves to what is shown, reading only the snapshot. */
module Render {
  import opened Wrappers
  import opened Words
  import opened GoTypes
  import opened FetchRules
  import opened FetchPlan
  import opened KernelFetch
  import opened Snapshot
  import opened Scatter
  import opened TypeRecipe

  /** What is shown of a value; number, address and quoting formats are left to the printer. */
  datatype Rendered =
    | Unavailable
    | UnknownInterface
    | TooDeep
    | Nil
    | TypedNil
    | Number(kind: ScalarKind, bytes: Bytes)
    | Address(addr: nat)
    | Text(content: Bytes, truncated: bool)
    | SliceView(name: string, len: int, cap: int, payload: Option<Rendered>)
    | Fields(name: string, fields: seq<NamedValue>)
    | Ref(target: Rendered)

  datatype NamedValue = NamedValue(name: string, value: Rendered)

  /** The fixed context of rendering: the type graph, the runtime type lookup, display options. */
  datatype Decoder = Decoder(env: TypeEnv, resolve: nat -> Option<GoType>, hideUnexported: bool)

  const MAX_READ_SIZE := 4096
  const MAX_DYNAMIC_DEPTH := 8

  /** `objectBytes`: the whole object from the snapshot if it is there, else the bytes in hand. */
  function ObjectBytes(size: int, data: Bytes, addr: nat, chunks: seq<Chunk>): Bytes
  {
    if size <= 0 then data
    else if addr != 0 && size <= MAX_READ_SIZE && Read(chunks, addr, size).Some? then
      Read(chunks, addr, size).value
    else if |data| >= size then data[..size]
    else data
  }

  function RenderText(addr: nat, len: int, chunks: seq<Chunk>): Option<Rendered>
    requires len > 0
  {
    var n := if len > AUTO_STRING_SIZE then AUTO_STRING_SIZE else len;
    match Read(chunks, addr, n)
    case None => None
    case Some(b) => Some(Text(b, len > AUTO_STRING_SIZE))
  }

  /** The concrete type an interface's first word leads to. */
  function DynamicType(d: Decoder, nonEmpty: bool, typeAddr: nat, chunks: seq<Chunk>): Option<GoType>
  {
    if d.resolve(typeAddr).Some? || !nonEmpty then d.resolve(typeAddr)
    else
      match Read(chunks, (typeAddr + 8) % ADDRESSES, 8)
      case None => None
      case Some(w) => d.resolve(LittleEndian(w))
  }

  /** `renderDynamicValue`. */
  function RenderValue(d: Decoder, t: GoType, data: Bytes, addr: nat, chunks: seq<Chunk>, depth: nat): Rendered
    requires depth <= MAX_DYNAMIC_DEPTH
    decreases MAX_DYNAMIC_DEPTH - depth, t
  {
    if depth >= MAX_DYNAMIC_DEPTH then TooDeep
    else
      match t
      case Named(b) => RenderValue(d, b, data, addr, chunks, depth)
      case Ptr(id) =>
        var ptr := ReadUint(data);
        if ptr == 0 then Nil
        else
          var size := Size(d.env(id));
          if size <= 0 || size > MAX_READ_SIZE then Unavailable
          else
            (match Read(chunks, ptr, size)
             case None => Unavailable
             case Some(buf) => Ref(RenderValue(d, d.env(id), buf, ptr, chunks, depth + 1)))
      case Str =>
        if |data| < 16 then Unavailable
        else
          var len := Signed64(ReadUint(data[8..16]));
          if len == 0 then Text([], false)
          else if len < 0 then Unavailable
          else RenderText(ReadUint(data), len, chunks).GetOr(Unavailable)
      case Slice(name, byteElements) =>
        if |data| < 24 then Unavailable
        else
          var arr := ReadUint(data);
          var len := Signed64(ReadUint(data[8..16]));
          var payload := if len <= 0 || arr == 0 || !byteElements then None else RenderText(arr, len, chunks);
          SliceView(name, len, Signed64(ReadUint(data[16..24])), payload)
      case Iface(nonEmpty) =>
        if |data| < 16 then UnknownInterface
        else if ReadUint(data) == 0 then Nil
        else
          (match DynamicType(d, nonEmpty, ReadUint(data), chunks)
           case None => UnknownInterface
           case Some(dyn) => RenderDynamic(d, dyn, ReadUint(data[8..]), chunks, depth + 1))
      case Struct(name, fields, size) =>
        Fields(name, RenderFields(d, fields, ObjectBytes(size, data, addr, chunks), addr, chunks, depth + 1))
      case Scalar(kind, n) => if n > |data| then Unavailable else Number(kind, data[..n])
      case Opaque(_) => Unavailable
  }

  /** The value behind an interface's data word. */
  function RenderDynamic(d: Decoder, dyn: GoType, dataAddr: nat, chunks: seq<Chunk>, depth: nat): Rendered
    requires depth <= MAX_DYNAMIC_DEPTH
    decreases MAX_DYNAMIC_DEPTH - depth
  {
    if IsDirect(dyn) then
      if Underlying(dyn).Ptr? && dataAddr == 0 then TypedNil
      else RenderValue(d, dyn, PutUint64(dataAddr), dataAddr, chunks, depth)
    else
      var value := ObjectBytes(Size(dyn), [], dataAddr, chunks);
      if |value| == 0 then Unavailable
      else RenderValue(d, dyn, value, dataAddr, chunks, depth)
  }

  function RenderFields(d: Decoder, fields: seq<Field>, data: Bytes, addr: nat, chunks: seq<Chunk>, depth: nat)
    : seq<NamedValue>
    requires depth <= MAX_DYNAMIC_DEPTH
    decreases MAX_DYNAMIC_DEPTH - depth, fields
  {
    if fields == [] then []
    else
      var f := fields[0];
      var rest := RenderFields(d, fields[1..], data, addr, chunks, depth);
      if d.hideUnexported && !f.exported then rest
      else
        var fieldAddr := (addr + f.offset) % ADDRESSES;
        var bytes := FieldBytes(f, data, addr, chunks);
        var shown := if |bytes| == 0 then Unavailable else RenderValue(d, f.typ, bytes, fieldAddr, chunks, depth);
        [NamedValue(f.name, shown)] + rest
  }

  /** `renderStructField`'s choice of bytes: the parent's, or the snapshot's when those are short. */
  function FieldBytes(f: Field, data: Bytes, addr: nat, chunks: seq<Chunk>): Bytes
  {
    if f.offset < 0 then []
    else
      var own := FieldMem(data, f.offset);
      var size := Size(f.typ);
      if 0 < size && |own| < size && addr != 0 then
        Read(chunks, (addr + f.offset) % ADDRESSES, size).GetOr(own)
      else own
  }

  // ---- one planned value ----

  function WordBytes(leaf: LeafData): Bytes
  {
    if |leaf.data| < 8 then leaf.data else leaf.data[..8]
  }

  function ConcatLeaves(leaves: seq<LeafData>): Bytes
  {
    if leaves == [] then [] else WordBytes(leaves[0]) + ConcatLeaves(leaves[1..])
  }

  /** `evalRel`: a recipe's path, followed through the snapshot; 0 when it leaves it. */
  function EvalRel(base: nat, steps: seq<Step>, chunks: seq<Chunk>): nat
    decreases |steps|
  {
    if steps == [] then base
    else
      var a := (base + steps[0].offset) % ADDRESSES;
      if !steps[0].deref then EvalRel(a, steps[1..], chunks)
      else
        match Read(chunks, a, 8)
        case None => 0
        case Some(w) => EvalRel(LittleEndian(w), steps[1..], chunks)
  }

  /** The snapshot so far and the next recipe leaf to take. */
  datatype Binding = Binding(chunks: seq<Chunk>, extra: nat)

  function BindRecipe(rules: seq<RelRule>, dataPtr: nat, all: seq<LeafData>, b: Binding): Binding
    decreases |rules|
  {
    if rules == [] || b.extra >= |all| then b
    else
      var addr := EvalRel(dataPtr, rules[0].steps, b.chunks);
      BindRecipe(rules[1..], dataPtr, all, Binding(b.chunks + Put(addr, all[b.extra]), b.extra + 1))
  }

  /** `applyRecipeExtras`. */
  function ApplyExtras(recipes: RecipeTable, typeAddr: nat, dataPtr: nat, all: seq<LeafData>, b: Binding): Binding
  {
    if typeAddr == 0 || typeAddr !in recipes then b else BindRecipe(recipes[typeAddr], dataPtr, all, b)
  }

  /** `applyNestedRecipes`. */
  function ApplyNested(recipes: RecipeTable, t: GoType, mem: Bytes, all: seq<LeafData>, b: Binding): Binding
    decreases t
  {
    match t
    case Named(u) => ApplyNested(recipes, u, mem, all, b)
    case Iface(nonEmpty) =>
      var tab := FirstWord(mem);
      var typeAddr :=
        if !nonEmpty || tab == 0 then tab
        else
          match Read(b.chunks, (tab + 8) % ADDRESSES, 8)
          case None => tab
          case Some(w) => LittleEndian(w);
      ApplyExtras(recipes, typeAddr, SecondWord(mem), all, b)
    case Struct(_, fields, _) => ApplyNestedFields(recipes, fields, mem, all, b)
    case _ => b
  }

  function ApplyNestedFields(recipes: RecipeTable, fields: seq<Field>, mem: Bytes, all: seq<LeafData>, b: Binding): Binding
    decreases fields
  {
    if fields == [] then b
    else
      var b' := ApplyNested(recipes, fields[0].typ, FieldMem(mem, fields[0].offset), all, b);
      ApplyNestedFields(recipes, fields[1..], mem, all, b')
  }

  datatype Shown = Shown(rendered: Rendered, extra: nat)

  /** `renderAuto` once a value's words and captures have been cut out of the leaf list. */
  function RenderLeaves(d: Decoder, v: Value, words: seq<LeafData>, captures: seq<LeafData>,
                        all: seq<LeafData>, extra: nat, recipes: RecipeTable): Shown
  {
    var t := Underlying(v.typ);
    var header := ConcatLeaves(words);
    if t.Iface? && |words| > 0 && (words[0].isNil || ReadUint(words[0].data) == 0) then Shown(Nil, extra)
    else if exists w <- words :: w.readError then Shown(Unavailable, extra)
    else if t.Ptr? && |captures| > 0 && captures[0].isNil then Shown(Nil, extra)
    else if |header| == 0 then Shown(Unavailable, extra)
    else if t.Ptr? then RenderPointer(d, t.target, ReadUint(header), captures, all, extra, recipes)
    else HeaderShown(d, v, t, header, captures, all, extra, recipes)
  }

  /** Every kind but a pointer, from the header its words make up. */
  function HeaderShown(d: Decoder, v: Value, t: GoType, header: Bytes, captures: seq<LeafData>,
                       all: seq<LeafData>, extra: nat, recipes: RecipeTable): Shown
    requires t == Underlying(v.typ) && !t.Ptr?
  {
    match t
    case Struct(_, _, _) =>
      var img := ScatteredImage(v.typ, header);
      Shown(RenderValue(d, v.typ, img, 0, ConsumeReg(v.typ, img, captures).chunks, 0), extra)
    case Str => Shown(RenderValue(d, v.typ, header, 0, BindHead(header, captures), 0), extra)
    case Slice(_, _) => Shown(RenderValue(d, v.typ, header, 0, BindHead(header, captures), 0), extra)
    case Iface(_) =>
      var bound := Binding(BindIface(header, captures), extra);
      var b := if |header| < 16 then bound
               else ApplyExtras(recipes, ReadUint(header), ReadUint(header[8..]), all, bound);
      Shown(RenderValue(d, v.typ, header, 0, b.chunks, 0), b.extra)
    case Scalar(_, _) => Shown(RenderValue(d, v.typ, header, 0, [], 0), extra)
    case Opaque(_) => Shown(RenderValue(d, v.typ, header, 0, [], 0), extra)
  }

  function BindHead(header: Bytes, captures: seq<LeafData>): seq<Chunk>
  {
    if |captures| == 0 then [] else Put(ReadUint(header), captures[0])
  }

  function RenderPointer(d: Decoder, id: TypeId, ptr: nat, captures: seq<LeafData>,
                         all: seq<LeafData>, extra: nat, recipes: RecipeTable): Shown
  {
    if ptr == 0 then Shown(Nil, extra)
    else if !IsCapturedStruct(d.env(id)) then Shown(Address(ptr), extra)
    else if |captures| == 0 || captures[0].readError then Shown(Unavailable, extra)
    else
      var obj := captures[0].data;
      var chunks := Put(ptr, captures[0]) + ConsumeMem(d.env(id), obj, captures[1..]).chunks;
      var b := ApplyNested(recipes, d.env(id), obj, all, Binding(chunks, extra));
      Shown(Ref(RenderValue(d, d.env(id), obj, ptr, b.chunks, 0)), b.extra)
  }

  // ---- the whole argument list ----

  datatype Progress = Progress(rendered: Rendered, cur: nat, extra: nat)

  /** `renderAuto`: cut the value's leaves out, or report it unavailable when they are missing. */
  function RenderAuto(d: Decoder, v: Value, all: seq<LeafData>, cur: nat, extra: nat, recipes: RecipeTable)
    : (p: Progress)
    requires cur <= |all|
    ensures p.cur <= |all|
  {
    var n := v.LeafCount();
    if n == 0 then Progress(Unavailable, cur, extra)
    else if cur + n > |all| then Progress(Unavailable, |all|, extra)
    else
      var words := all[cur..cur + v.wordCount];
      var captures := all[cur + v.wordCount..cur + n];
      var shown := RenderLeaves(d, v, words, captures, all, extra, recipes);
      Progress(shown.rendered, cur + n, shown.extra)
  }

  function RenderList(d: Decoder, values: seq<Value>, all: seq<LeafData>, cur: nat, extra: nat, recipes: RecipeTable)
    : (r: seq<NamedValue>)
    requires cur <= |all|
    ensures |r| == |values|
    decreases values
  {
    if values == [] then []
    else
      var p := RenderAuto(d, values[0], all, cur, extra, recipes);
      [NamedValue(values[0].name, p.rendered)] + RenderList(d, values[1..], all, p.cur, p.extra, recipes)
  }
}
