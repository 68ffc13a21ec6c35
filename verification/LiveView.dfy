/** The reference: what a value means, read straight from the traced process's memory, and the
 *  proof that a rendering from a sound snapshot never shows anything else. */
module LiveView {
  import opened Wrappers
  import opened Words
  import opened GoTypes
  import opened FetchRules
  import opened TargetMemory
  import opened Snapshot
  import opened Render

  /** The bytes of a value from its first byte on; None where the process has no memory. */
  type Image = seq<Option<Byte>>

  function LiveByte(mem: Memory, addr: int): Option<Byte>
  {
    if addr in mem then Some(mem[addr]) else None
  }

  function Live(mem: Memory, addr: nat, n: nat): (img: Image)
    ensures |img| == n
    ensures forall i | 0 <= i < n :: img[i] == LiveByte(mem, At(addr, i))
  {
    seq(n, i requires 0 <= i < n => LiveByte(mem, At(addr, i)))
  }

  function Defined(b: Bytes): (img: Image)
    ensures |img| == |b| && forall i | 0 <= i < |b| :: img[i] == Some(b[i])
  {
    seq(|b|, i requires 0 <= i < |b| => Some(b[i]))
  }

  function Drop(img: Image, n: int): Image
  {
    if 0 <= n <= |img| then img[n..] else []
  }

  predicate AllKnown(img: Image, from: nat, n: nat)
  {
    from + n <= |img| && forall i | from <= i < from + n :: img[i].Some?
  }

  function Known(img: Image, from: nat, n: nat): Bytes
    requires AllKnown(img, from, n)
  {
    seq(n, i requires 0 <= i < n && img[from + i].Some? => img[from + i].value)
  }

  function WordAt(img: Image, from: nat): nat
    requires AllKnown(img, from, 8)
  {
    LittleEndian(Known(img, from, 8))
  }

  function LiveText(mem: Memory, addr: nat, len: int): Option<Rendered>
    requires len > 0
  {
    match ReadUser(mem, addr, if len > AUTO_STRING_SIZE then AUTO_STRING_SIZE else len)
    case None => None
    case Some(b) => Some(Text(b, len > AUTO_STRING_SIZE))
  }

  /** The concrete type of an interface in memory by its first word: the type itself for an interface
   *  without methods; for one with methods that word is an itab, whose second word is the type. */
  function LiveDynamicType(d: Decoder, nonEmpty: bool, first: nat, mem: Memory): Option<GoType>
  {
    if !nonEmpty then d.resolve(first)
    else
      match ReadUser(mem, (first + 8) % ADDRESSES, 8)
      case None => None
      case Some(w) => d.resolve(LittleEndian(w))
  }

  /** What a value of type `t` with these bytes means. */
  function View(d: Decoder, t: GoType, img: Image, mem: Memory, depth: nat): Rendered
    requires depth <= MAX_DYNAMIC_DEPTH
    decreases MAX_DYNAMIC_DEPTH - depth, t
  {
    if depth >= MAX_DYNAMIC_DEPTH then TooDeep
    else
      match t
      case Named(b) => View(d, b, img, mem, depth)
      case Scalar(kind, n) => if AllKnown(img, 0, n) then Number(kind, Known(img, 0, n)) else Unavailable
      case Ptr(id) =>
        if !AllKnown(img, 0, 8) then Unavailable
        else if WordAt(img, 0) == 0 then Nil
        else
          var size := Size(d.env(id));
          if size <= 0 || size > MAX_READ_SIZE then Unavailable
          else Ref(View(d, d.env(id), Live(mem, WordAt(img, 0), size), mem, depth + 1))
      case Str =>
        if !AllKnown(img, 0, 16) then Unavailable
        else
          var len := Signed64(WordAt(img, 8));
          if len == 0 then Text([], false)
          else if len < 0 then Unavailable
          else LiveText(mem, WordAt(img, 0), len).GetOr(Unavailable)
      case Slice(name, byteElements) =>
        if !AllKnown(img, 0, 24) then Unavailable
        else
          var arr, len := WordAt(img, 0), Signed64(WordAt(img, 8));
          var payload := if len <= 0 || arr == 0 || !byteElements then None else LiveText(mem, arr, len);
          SliceView(name, len, Signed64(WordAt(img, 16)), payload)
      case Iface(nonEmpty) =>
        if !AllKnown(img, 0, 16) then UnknownInterface
        else if WordAt(img, 0) == 0 then Nil
        else
          (match LiveDynamicType(d, nonEmpty, WordAt(img, 0), mem)
           case None => UnknownInterface
           case Some(dyn) => DynamicView(d, dyn, WordAt(img, 8), mem, depth + 1))
      case Struct(name, fields, _) => Fields(name, FieldViews(d, fields, img, mem, depth + 1))
      case Opaque(_) => Unavailable
  }

  function DynamicView(d: Decoder, dyn: GoType, dataAddr: nat, mem: Memory, depth: nat): Rendered
    requires depth <= MAX_DYNAMIC_DEPTH
    decreases MAX_DYNAMIC_DEPTH - depth
  {
    if IsDirect(dyn) then
      if Underlying(dyn).Ptr? && dataAddr == 0 then TypedNil
      else View(d, dyn, Defined(PutUint64(dataAddr)), mem, depth)
    else if dataAddr == 0 || Size(dyn) <= 0 || Size(dyn) > MAX_READ_SIZE then Unavailable
    else View(d, dyn, Live(mem, dataAddr, Size(dyn)), mem, depth)
  }

  function FieldViews(d: Decoder, fields: seq<Field>, img: Image, mem: Memory, depth: nat): seq<NamedValue>
    requires depth <= MAX_DYNAMIC_DEPTH
    decreases MAX_DYNAMIC_DEPTH - depth, fields
  {
    if fields == [] then []
    else
      var f := fields[0];
      var rest := FieldViews(d, fields[1..], img, mem, depth);
      if d.hideUnexported && !f.exported then rest
      else [NamedValue(f.name, View(d, f.typ, Drop(img, f.offset), mem, depth))] + rest
  }

  // ---- which values are covered ----

  /** No interface on the way to what is shown of the value holds a struct that the repository's
   *  approximation takes for direct, and no itab on the way is the address of a runtime type. It
   *  follows `View`, so it says nothing of types that the value does not lead to. */
  predicate PlainReached(d: Decoder, t: GoType, img: Image, mem: Memory, depth: nat)
    requires depth <= MAX_DYNAMIC_DEPTH
    decreases MAX_DYNAMIC_DEPTH - depth, t
  {
    depth < MAX_DYNAMIC_DEPTH ==>
      match t
      case Named(b) => PlainReached(d, b, img, mem, depth)
      case Ptr(id) =>
        var size := Size(d.env(id));
        AllKnown(img, 0, 8) && WordAt(img, 0) != 0 && 0 < size <= MAX_READ_SIZE ==>
          PlainReached(d, d.env(id), Live(mem, WordAt(img, 0), size), mem, depth + 1)
      case Iface(nonEmpty) =>
        AllKnown(img, 0, 16) && WordAt(img, 0) != 0 ==>
          && (nonEmpty ==> d.resolve(WordAt(img, 0)).None?)
          && (match LiveDynamicType(d, nonEmpty, WordAt(img, 0), mem)
           case None => true
           case Some(dyn) => PlainDynamic(d, dyn, WordAt(img, 8), mem, depth + 1))
      case Struct(_, fields, _) =>
        forall f <- fields | Visible(d, f) :: PlainReached(d, f.typ, Drop(img, f.offset), mem, depth + 1)
      case _ => true
  }

  predicate Visible(d: Decoder, f: Field)
  {
    f.exported || !d.hideUnexported
  }

  predicate PlainDynamic(d: Decoder, dyn: GoType, dataAddr: nat, mem: Memory, depth: nat)
    requires depth <= MAX_DYNAMIC_DEPTH
    decreases MAX_DYNAMIC_DEPTH - depth
  {
    && PlainWhenDirect(dyn)
    && (if IsDirect(dyn) then PlainReached(d, dyn, Defined(PutUint64(dataAddr)), mem, depth)
        else 0 < Size(dyn) <= MAX_READ_SIZE && dataAddr != 0 ==>
               PlainReached(d, dyn, Live(mem, dataAddr, Size(dyn)), mem, depth))
  }

  predicate PlainWhenDirect(t: GoType)
  {
    IsDirect(t) ==> !Underlying(t).Struct?
  }

  /** No interface in the type, and every pointer leads to one of these types. */
  ghost predicate InterfaceFree(t: GoType, ids: iset<TypeId>)
  {
    match t
    case Named(b) => InterfaceFree(b, ids)
    case Ptr(id) => id in ids
    case Iface(_) => false
    case Struct(_, fields, _) => forall f <- fields :: InterfaceFree(f.typ, ids)
    case _ => true
  }

  ghost predicate InterfacesUnreachable(d: Decoder, ids: iset<TypeId>)
  {
    forall id <- ids :: InterfaceFree(d.env(id), ids)
  }

  /** Whatever the registers and the memory hold, a type from which no interface can be reached is
   *  covered. */
  lemma {:induction false} InterfaceFreePlain(d: Decoder, ids: iset<TypeId>, t: GoType, img: Image, mem: Memory, depth: nat)
    requires depth <= MAX_DYNAMIC_DEPTH && InterfaceFree(t, ids) && InterfacesUnreachable(d, ids)
    ensures PlainReached(d, t, img, mem, depth)
    decreases MAX_DYNAMIC_DEPTH - depth, t
  {
    hide InterfacesUnreachable, Live, PlainDynamic, LiveDynamicType, Known, Size;
    if depth < MAX_DYNAMIC_DEPTH {
      match t
      case Named(b) => InterfaceFreePlain(d, ids, b, img, mem, depth);
      case Ptr(id) => PointeePlain(d, ids, id, img, mem, depth);
      case Struct(_, fields, _) =>
        forall f | f in fields
          ensures PlainReached(d, f.typ, Drop(img, f.offset), mem, depth + 1)
        {
          InterfaceFreePlain(d, ids, f.typ, Drop(img, f.offset), mem, depth + 1);
        }
      case _ =>
    }
  }

  lemma {:induction false} PointeePlain(d: Decoder, ids: iset<TypeId>, id: TypeId, img: Image, mem: Memory, depth: nat)
    requires depth < MAX_DYNAMIC_DEPTH && id in ids && InterfacesUnreachable(d, ids)
    ensures PlainReached(d, Ptr(id), img, mem, depth)
    decreases MAX_DYNAMIC_DEPTH - depth, Ptr(id), 0
  {
    hide Live, InterfaceFree;
    var size := Size(d.env(id));
    if AllKnown(img, 0, 8) && 0 < size {
      InterfaceFreePlain(d, ids, d.env(id), Live(mem, WordAt(img, 0), size), mem, depth + 1);
    }
  }

  /** Where no runtime type is known every value is covered. */
  lemma {:induction false} NothingResolved(d: Decoder, t: GoType, img: Image, mem: Memory, depth: nat)
    requires depth <= MAX_DYNAMIC_DEPTH && forall a :: d.resolve(a).None?
    ensures PlainReached(d, t, img, mem, depth)
    decreases MAX_DYNAMIC_DEPTH - depth, t
  {
    hide Live, PlainDynamic, Known, Size;
    if depth < MAX_DYNAMIC_DEPTH {
      match t
      case Named(b) => NothingResolved(d, b, img, mem, depth);
      case Ptr(id) =>
        if AllKnown(img, 0, 8) && 0 < Size(d.env(id)) {
          NothingResolved(d, d.env(id), Live(mem, WordAt(img, 0), Size(d.env(id))), mem, depth + 1);
        }
      case Struct(_, fields, _) =>
        forall f | f in fields
          ensures PlainReached(d, f.typ, Drop(img, f.offset), mem, depth + 1)
        {
          NothingResolved(d, f.typ, Drop(img, f.offset), mem, depth + 1);
        }
      case _ =>
    }
  }

  lemma AtShift(addr: int, k: int, i: int)
    ensures At((addr + k) % ADDRESSES, i) == At(addr, k + i)
  {
    var q := (addr + k) / ADDRESSES;
    assert addr + k + i == (addr + k) % ADDRESSES + i + q * ADDRESSES;
    SkipMultiple((addr + k) % ADDRESSES + i, q);
  }

  lemma {:induction false} SkipMultiple(a: int, q: int)
    ensures (a + q * ADDRESSES) % ADDRESSES == a % ADDRESSES
  {
    var r := a / ADDRESSES;
    assert a + q * ADDRESSES == (r + q) * ADDRESSES + a % ADDRESSES;
  }

  // ---- shown values are true ----

  /** Everything `shown` shows, `truth` shows too: subtrees may be unavailable and a slice's
   *  content omitted, but nothing is invented or altered. */
  predicate Faithful(shown: Rendered, truth: Rendered)
    decreases shown
  {
    match shown
    case Unavailable => true
    case UnknownInterface => true
    case Ref(a) => truth.Ref? && Faithful(a, truth.target)
    case Fields(name, fs) => truth.Fields? && truth.name == name && FieldsFaithful(fs, truth.fields)
    case SliceView(name, len, cap, payload) =>
      && truth.SliceView? && truth.name == name && truth.len == len && truth.cap == cap
      && (payload.None? || payload == truth.payload)
    case _ => shown == truth
  }

  predicate FieldsFaithful(shown: seq<NamedValue>, truth: seq<NamedValue>)
    decreases shown
  {
    if shown == [] then truth == []
    else
      && truth != []
      && shown[0].name == truth[0].name
      && Faithful(shown[0].value, truth[0].value)
      && FieldsFaithful(shown[1..], truth[1..])
  }

  /** A chunk holds what the process's memory held. */
  ghost predicate SoundChunk(c: Chunk, mem: Memory)
  {
    forall i | 0 <= i < |c.data| :: LiveByte(mem, At(c.addr, i)) == Some(c.data[i])
  }

  ghost predicate Sound(chunks: seq<Chunk>, mem: Memory)
  {
    forall c <- chunks :: SoundChunk(c, mem)
  }

  lemma LiveRead(mem: Memory, addr: int, b: Bytes)
    requires forall i | 0 <= i < |b| :: LiveByte(mem, At(addr, i)) == Some(b[i])
    ensures ReadUser(mem, addr, |b|) == Some(b)
  {
    forall i | 0 <= i < |b|
      ensures At(addr, i) in mem
    {
      assert LiveByte(mem, At(addr, i)) == Some(b[i]);
    }
    assert ReadUser(mem, addr, |b|).value == b;
  }

  lemma {:induction false} ReadSound(chunks: seq<Chunk>, addr: nat, n: nat, mem: Memory)
    requires Sound(chunks, mem) && Read(chunks, addr, n).Some?
    ensures ReadUser(mem, addr, n) == Read(chunks, addr, n)
  {
    var c := chunks[0];
    if Covers(c, addr) {
      var b := Read(chunks, addr, n).value;
      var start := addr - c.addr;
      assert b == c.data[start..start + n];
      forall i | 0 <= i < n
        ensures LiveByte(mem, At(addr, i)) == Some(b[i])
      {
        assert c in chunks && LiveByte(mem, At(c.addr, start + i)) == Some(c.data[start + i]);
      }
      LiveRead(mem, addr, b);
    } else {
      ReadSound(chunks[1..], addr, n, mem);
    }
  }

  /** The bytes in hand agree with the value's bytes wherever the type puts something. */
  predicate Agrees(t: GoType, data: Bytes, img: Image)
    decreases t
  {
    match t
    case Named(b) => Agrees(b, data, img)
    case Struct(_, fields, _) =>
      forall f <- fields :: Agrees(f.typ, FieldMem(data, f.offset), Drop(img, f.offset))
    case Opaque(_) => true
    case _ => AgreesUpTo(data, img, Size(t))
  }

  predicate AgreesUpTo(data: Bytes, img: Image, n: int)
  {
    forall i | 0 <= i < n && i < |data| :: i < |img| && img[i] == Some(data[i])
  }

  lemma {:induction false} AgreesWhole(t: GoType, data: Bytes, img: Image)
    requires WellFormed(t) && AgreesUpTo(data, img, Size(t))
    ensures Agrees(t, data, img)
    decreases t
  {
    match t
    case Named(b) => AgreesWhole(b, data, img);
    case Struct(_, fields, size) =>
      forall f | f in fields
        ensures Agrees(f.typ, FieldMem(data, f.offset), Drop(img, f.offset))
      {
        assert FieldFits(f, size);
        AgreesWhole(f.typ, FieldMem(data, f.offset), Drop(img, f.offset));
      }
    case _ =>
  }

  lemma {:induction false} AgreesPrefix(t: GoType, data: Bytes, n: nat, img: Image)
    requires Agrees(t, data, img) && n <= |data|
    ensures Agrees(t, data[..n], img)
    decreases t
  {
    match t
    case Named(b) => AgreesPrefix(b, data, n, img);
    case Struct(_, fields, size) =>
      forall f | f in fields
        ensures Agrees(f.typ, FieldMem(data[..n], f.offset), Drop(img, f.offset))
      {
        FieldPrefix(data, n, f.offset);
        AgreesPrefix(f.typ, FieldMem(data, f.offset), |FieldMem(data[..n], f.offset)|, Drop(img, f.offset));
      }
    case _ =>
  }

  /** A field of a prefix is a prefix of the field. */
  lemma FieldPrefix(data: Bytes, n: nat, offset: int)
    requires n <= |data|
    ensures var own, part := FieldMem(data, offset), FieldMem(data[..n], offset);
            |part| <= |own| && own[..|part|] == part
  {
  }

  const LOW_PAGE := 4096

  /** No process maps the page at address 0. */
  ghost predicate LowPageUnmapped(mem: Memory)
  {
    forall a | 0 <= a < LOW_PAGE :: a !in mem
  }

  /** The value lies at `addr`, or `addr` is an offset from nil where nothing is mapped. */
  ghost predicate Located(addr: nat, n: int, img: Image, mem: Memory)
  {
    addr + n <= LOW_PAGE || forall i | 0 <= i < n :: i < |img| && img[i] == LiveByte(mem, At(addr, i))
  }

  /** Enough bytes for every pointer of the value that is reached at all. */
  predicate Aligned(t: GoType, data: Bytes)
  {
    |data| >= Size(t) || |data| % 8 == 0 || !HasPtr(t)
  }

  /** What the runtime type lookup returns is a Go type. */
  ghost predicate ResolverOk(d: Decoder)
  {
    forall a :: d.resolve(a).Some? ==> WellFormed(d.resolve(a).value)
  }

  ghost predicate Context(d: Decoder, chunks: seq<Chunk>, mem: Memory)
  {
    WellFormedEnv(d.env) && ResolverOk(d) && LowPageUnmapped(mem) && Sound(chunks, mem)
  }

  lemma WordAgrees(data: Bytes, img: Image, from: nat, n: int)
    requires AgreesUpTo(data, img, n) && from + 8 <= n && from + 8 <= |data|
    ensures AllKnown(img, from, 8) && Known(img, from, 8) == data[from..from + 8]
  {
    var last := data[from + 7];
    assert from + 7 < |img| && img[from + 7] == Some(last);
  }

  lemma {:induction false} TextFaithful(addr: nat, len: int, chunks: seq<Chunk>, mem: Memory)
    requires Sound(chunks, mem) && len > 0
    ensures var r := RenderText(addr, len, chunks); r.None? || r == LiveText(mem, addr, len)
  {
    var n := if len > AUTO_STRING_SIZE then AUTO_STRING_SIZE else len;
    if Read(chunks, addr, n).Some? {
      ReadSound(chunks, addr, n, mem);
    }
  }

  /** A read of the snapshot at a value's own address returns that value's bytes. */
  lemma LocatedRead(addr: nat, n: nat, img: Image, chunks: seq<Chunk>, mem: Memory)
    requires Sound(chunks, mem) && LowPageUnmapped(mem) && addr < ADDRESSES && 0 < n
    requires Located(addr, n, img, mem) && Read(chunks, addr, n).Some?
    ensures AgreesUpTo(Read(chunks, addr, n).value, img, n)
  {
    ReadSound(chunks, addr, n, mem);
    assert At(addr, 0) == addr && At(addr, 0) in mem;
  }

  lemma LocatedField(addr: nat, size: int, f: Field, img: Image, mem: Memory)
    requires addr < ADDRESSES && Located(addr, size, img, mem) && FieldFits(f, size) && size <= |img|
    requires 0 <= Size(f.typ)
    ensures Located((addr + f.offset) % ADDRESSES, Size(f.typ), Drop(img, f.offset), mem)
  {
    var a := (addr + f.offset) % ADDRESSES;
    if addr + size > LOW_PAGE {
      forall i | 0 <= i < Size(f.typ)
        ensures Drop(img, f.offset)[i] == LiveByte(mem, At(a, i))
      {
        AtShift(addr, f.offset, i);
        assert img[f.offset + i] == LiveByte(mem, At(addr, f.offset + i));
      }
    }
  }

  lemma {:induction false} RenderFaithful(d: Decoder, t: GoType, data: Bytes, addr: nat, img: Image,
                                          chunks: seq<Chunk>, mem: Memory, depth: nat)
    requires depth <= MAX_DYNAMIC_DEPTH && Context(d, chunks, mem)
    requires WellFormed(t) && Agrees(t, data, img) && Size(t) <= |img|
    requires 0 < |data| && Aligned(t, data) && PlainReached(d, t, img, mem, depth)
    requires addr < ADDRESSES && (Underlying(t).Struct? ==> Located(addr, Size(t), img, mem))
    ensures Faithful(RenderValue(d, t, data, addr, chunks, depth), View(d, t, img, mem, depth))
    decreases MAX_DYNAMIC_DEPTH - depth, t
  {
    hide RenderValue, View, Faithful, Located, Agrees, PlainReached, WellFormed, Aligned, Context;
    match t
    case Named(b) =>
      NamedKind(d, b, data, img, mem, depth);
      NamedStep(d, b, data, addr, img, chunks, mem, depth);
      RenderFaithful(d, b, data, addr, img, chunks, mem, depth);
    case Struct(_, _, _) =>
      if depth < MAX_DYNAMIC_DEPTH {
        RenderStructFaithful(d, t, data, addr, img, chunks, mem, depth);
      } else {
        TooDeepFaithful(d, t, data, addr, img, chunks, mem);
      }
    case Ptr(id) =>
      if depth < MAX_DYNAMIC_DEPTH {
        PointerKind(id, data, img);
        RenderPtrFaithful(d, id, data, img, chunks, mem, depth);
      } else {
        TooDeepFaithful(d, t, data, addr, img, chunks, mem);
      }
    case Iface(nonEmpty) =>
      if depth < MAX_DYNAMIC_DEPTH {
        PlainKind(t, data, img);
        RenderIfaceFaithful(d, nonEmpty, data, img, chunks, mem, depth);
      } else {
        TooDeepFaithful(d, t, data, addr, img, chunks, mem);
      }
    case _ => RenderPlainFaithful(d, t, data, addr, img, chunks, mem, depth);
  }

  lemma NamedKind(d: Decoder, b: GoType, data: Bytes, img: Image, mem: Memory, depth: nat)
    requires depth <= MAX_DYNAMIC_DEPTH
    ensures WellFormed(Named(b)) == WellFormed(b) && Agrees(Named(b), data, img) == Agrees(b, data, img)
    ensures Aligned(Named(b), data) == Aligned(b, data) && PlainReached(d, Named(b), img, mem, depth) == PlainReached(d, b, img, mem, depth)
  {
  }

  lemma PointerKind(id: TypeId, data: Bytes, img: Image)
    requires Agrees(Ptr(id), data, img) && Aligned(Ptr(id), data) && |data| > 0
    ensures AgreesUpTo(data, img, 8) && |data| >= 8
  {
  }

  lemma PlainKind(t: GoType, data: Bytes, img: Image)
    requires Agrees(t, data, img) && (t.Str? || t.Slice? || t.Iface?)
    ensures AgreesUpTo(data, img, Size(t))
  {
  }

  /** The kinds that lead to no other type. */
  lemma RenderPlainFaithful(d: Decoder, t: GoType, data: Bytes, addr: nat, img: Image, chunks: seq<Chunk>, mem: Memory, depth: nat)
    requires depth <= MAX_DYNAMIC_DEPTH && Context(d, chunks, mem) && Agrees(t, data, img)
    requires t.Scalar? || t.Opaque? || t.Str? || t.Slice?
    ensures Faithful(RenderValue(d, t, data, addr, chunks, depth), View(d, t, img, mem, depth))
  {
    hide RenderValue, View, Faithful, Agrees;
    match t
    case Scalar(_, _) => RenderScalarFaithful(d, t, data, addr, img, chunks, mem, depth);
    case Opaque(_) => RenderScalarFaithful(d, t, data, addr, img, chunks, mem, depth);
    case Str =>
      PlainKind(t, data, img);
      RenderStringFaithful(d, data, addr, img, chunks, mem, depth);
    case Slice(_, _) =>
      PlainKind(t, data, img);
      RenderSliceFaithful(d, t, data, addr, img, chunks, mem, depth);
  }

  lemma {:induction false} RenderStructFaithful(d: Decoder, t: GoType, data: Bytes, addr: nat, img: Image,
                                                chunks: seq<Chunk>, mem: Memory, depth: nat)
    requires depth < MAX_DYNAMIC_DEPTH && Context(d, chunks, mem) && t.Struct?
    requires WellFormed(t) && Agrees(t, data, img) && Size(t) <= |img|
    requires Aligned(t, data) && PlainReached(d, t, img, mem, depth)
    requires addr < ADDRESSES && Located(addr, Size(t), img, mem)
    ensures Faithful(RenderValue(d, t, data, addr, chunks, depth), View(d, t, img, mem, depth))
    decreases MAX_DYNAMIC_DEPTH - depth, t, 0
  {
    hide RenderValue, View, Faithful, FieldsFaithful, RenderFields, FieldViews, ObjectBytes, Located, Agrees, Aligned, WellFormed, PlainReached;
    var obj := ObjectBytes(t.size, data, addr, chunks);
    ObjectAgrees(t, data, addr, img, chunks, mem);
    FieldsPlain(d, t, img, mem, depth);
    RenderFieldsFaithful(d, t, t.fields, obj, addr, img, chunks, mem, depth + 1);
    StructStep(d, t.name, t.fields, t.size, data, addr, img, chunks, mem, depth);
  }

  lemma FieldsPlain(d: Decoder, t: GoType, img: Image, mem: Memory, depth: nat)
    requires depth < MAX_DYNAMIC_DEPTH && t.Struct? && PlainReached(d, t, img, mem, depth)
    ensures forall f <- t.fields | Visible(d, f) :: PlainReached(d, f.typ, Drop(img, f.offset), mem, depth + 1)
  {
  }

  lemma NamedStep(d: Decoder, b: GoType, data: Bytes, addr: nat, img: Image, chunks: seq<Chunk>, mem: Memory, depth: nat)
    requires depth <= MAX_DYNAMIC_DEPTH
    ensures RenderValue(d, Named(b), data, addr, chunks, depth) == RenderValue(d, b, data, addr, chunks, depth)
    ensures View(d, Named(b), img, mem, depth) == View(d, b, img, mem, depth)
  {
  }

  lemma TooDeepFaithful(d: Decoder, t: GoType, data: Bytes, addr: nat, img: Image, chunks: seq<Chunk>, mem: Memory)
    ensures Faithful(RenderValue(d, t, data, addr, chunks, MAX_DYNAMIC_DEPTH), View(d, t, img, mem, MAX_DYNAMIC_DEPTH))
  {
  }

  lemma StructStep(d: Decoder, name: string, fields: seq<Field>, size: int, data: Bytes, addr: nat, img: Image,
                   chunks: seq<Chunk>, mem: Memory, depth: nat)
    requires depth < MAX_DYNAMIC_DEPTH
    requires FieldsFaithful(RenderFields(d, fields, ObjectBytes(size, data, addr, chunks), addr, chunks, depth + 1),
                            FieldViews(d, fields, img, mem, depth + 1))
    ensures var t := Struct(name, fields, size);
            Faithful(RenderValue(d, t, data, addr, chunks, depth), View(d, t, img, mem, depth))
  {
    hide FieldsFaithful, RenderFields, FieldViews, ObjectBytes;
  }

  lemma RenderScalarFaithful(d: Decoder, t: GoType, data: Bytes, addr: nat, img: Image,
                             chunks: seq<Chunk>, mem: Memory, depth: nat)
    requires depth <= MAX_DYNAMIC_DEPTH && (t.Scalar? || t.Opaque?) && Agrees(t, data, img)
    ensures Faithful(RenderValue(d, t, data, addr, chunks, depth), View(d, t, img, mem, depth))
  {
    if t.Scalar? && t.bytes <= |data| {
      forall i | 0 <= i < t.bytes
        ensures i < |img| && img[i] == Some(data[i])
      {
        var b := data[i];
      }
      assert t.bytes <= |img| by {
        if t.bytes > 0 { var last := data[t.bytes - 1]; }
      }
      assert Known(img, 0, t.bytes) == data[..t.bytes];
    }
  }

  lemma RenderStringFaithful(d: Decoder, data: Bytes, addr: nat, img: Image,
                             chunks: seq<Chunk>, mem: Memory, depth: nat)
    requires depth <= MAX_DYNAMIC_DEPTH && Sound(chunks, mem) && AgreesUpTo(data, img, 16)
    ensures Faithful(RenderValue(d, Str, data, addr, chunks, depth), View(d, Str, img, mem, depth))
  {
    if |data| >= 16 {
      WordAgrees(data, img, 0, 16);
      WordAgrees(data, img, 8, 16);
      assert data[8..16][..8] == data[8..16];
      assert AllKnown(img, 0, 16);
      var len := Signed64(WordAt(img, 8));
      if len > 0 { TextFaithful(WordAt(img, 0), len, chunks, mem); }
    }
  }

  lemma RenderSliceFaithful(d: Decoder, t: GoType, data: Bytes, addr: nat, img: Image,
                            chunks: seq<Chunk>, mem: Memory, depth: nat)
    requires depth <= MAX_DYNAMIC_DEPTH && Sound(chunks, mem)
    requires t.Slice? && AgreesUpTo(data, img, 24)
    ensures Faithful(RenderValue(d, t, data, addr, chunks, depth), View(d, t, img, mem, depth))
  {
    if |data| >= 24 {
      WordAgrees(data, img, 0, 24);
      WordAgrees(data, img, 8, 24);
      WordAgrees(data, img, 16, 24);
      assert data[8..16][..8] == data[8..16] && data[16..24][..8] == data[16..24];
      assert AllKnown(img, 0, 24);
      var len := Signed64(WordAt(img, 8));
      if len > 0 { TextFaithful(WordAt(img, 0), len, chunks, mem); }
    }
  }

  /** `objectBytes` still agrees with the value, and keeps its pointers whole. */
  lemma ObjectAgrees(t: GoType, data: Bytes, addr: nat, img: Image, chunks: seq<Chunk>, mem: Memory)
    requires Sound(chunks, mem) && LowPageUnmapped(mem) && addr < ADDRESSES
    requires t.Struct? && WellFormed(t) && Agrees(t, data, img) && Size(t) <= |img|
    requires Aligned(t, data) && Located(addr, Size(t), img, mem)
    ensures var obj := ObjectBytes(Size(t), data, addr, chunks); Agrees(t, obj, img) && Aligned(t, obj)
  {
    var size := Size(t);
    if size > 0 {
      if addr != 0 && size <= MAX_READ_SIZE && Read(chunks, addr, size).Some? {
        LocatedRead(addr, size, img, chunks, mem);
        AgreesWhole(t, Read(chunks, addr, size).value, img);
      } else if |data| >= size {
        AgreesPrefix(t, data, size, img);
      }
    }
  }

  lemma {:induction false} RenderPtrFaithful(d: Decoder, id: TypeId, data: Bytes, img: Image,
                                             chunks: seq<Chunk>, mem: Memory, depth: nat)
    requires depth < MAX_DYNAMIC_DEPTH && Context(d, chunks, mem)
    requires AgreesUpTo(data, img, 8) && |data| >= 8 && PlainReached(d, Ptr(id), img, mem, depth)
    ensures forall addr ::
      Faithful(RenderValue(d, Ptr(id), data, addr, chunks, depth), View(d, Ptr(id), img, mem, depth))
    decreases MAX_DYNAMIC_DEPTH - depth, Ptr(id), 0
  {
    hide RenderValue, View, Faithful, PlainReached, Context, Located, Live, WellFormed, Agrees, Aligned, Read;
    WordAgrees(data, img, 0, 8);
    assert data[0..8] == data[..8];
    var ptr, size := ReadUint(data), Size(d.env(id));
    assert ptr == WordAt(img, 0);
    if ptr != 0 && 0 < size <= MAX_READ_SIZE && Read(chunks, ptr, size).Some? {
      var buf := Read(chunks, ptr, size).value;
      WordBound(Known(img, 0, 8));
      PointeePlainReached(d, id, img, mem, depth);
      PointeeRead(d, id, ptr, buf, chunks, mem);
      RenderFaithful(d, d.env(id), buf, ptr, Live(mem, ptr, size), chunks, mem, depth + 1);
    }
    PointerStep(d, id, data, img, chunks, mem, depth);
  }

  lemma PointeePlainReached(d: Decoder, id: TypeId, img: Image, mem: Memory, depth: nat)
    requires depth < MAX_DYNAMIC_DEPTH && PlainReached(d, Ptr(id), img, mem, depth) && AllKnown(img, 0, 8)
    ensures var size := Size(d.env(id));
            WordAt(img, 0) != 0 && 0 < size <= MAX_READ_SIZE ==>
              PlainReached(d, d.env(id), Live(mem, WordAt(img, 0), size), mem, depth + 1)
  {
  }

  /** The bytes found for a pointer's target are the target's. */
  lemma PointeeRead(d: Decoder, id: TypeId, ptr: nat, buf: Bytes, chunks: seq<Chunk>, mem: Memory)
    requires Context(d, chunks, mem) && 0 < Size(d.env(id)) && Read(chunks, ptr, Size(d.env(id))) == Some(buf)
    ensures var t, size := d.env(id), Size(d.env(id));
            WellFormed(t) && Agrees(t, buf, Live(mem, ptr, size)) && Aligned(t, buf) && Located(ptr, size, Live(mem, ptr, size), mem)
  {
    hide Agrees, WellFormed;
    var size := Size(d.env(id));
    ReadSound(chunks, ptr, size, mem);
    assert WellFormed(d.env(id));
    assert AgreesUpTo(buf, Live(mem, ptr, size), size);
    AgreesWhole(d.env(id), buf, Live(mem, ptr, size));
  }

  /** A pointer is shown truly if its target is. */
  lemma PointerStep(d: Decoder, id: TypeId, data: Bytes, img: Image, chunks: seq<Chunk>, mem: Memory, depth: nat)
    requires depth < MAX_DYNAMIC_DEPTH && AllKnown(img, 0, 8) && WordAt(img, 0) == ReadUint(data)
    requires var ptr, size := ReadUint(data), Size(d.env(id));
             ptr != 0 && 0 < size <= MAX_READ_SIZE && Read(chunks, ptr, size).Some? ==>
               var buf := Read(chunks, ptr, size).value;
               Faithful(RenderValue(d, d.env(id), buf, ptr, chunks, depth + 1), View(d, d.env(id), Live(mem, ptr, size), mem, depth + 1))
    ensures forall addr ::
      Faithful(RenderValue(d, Ptr(id), data, addr, chunks, depth), View(d, Ptr(id), img, mem, depth))
  {
    hide Live, Read;
  }

  lemma {:induction false} RenderIfaceFaithful(d: Decoder, nonEmpty: bool, data: Bytes, img: Image,
                                               chunks: seq<Chunk>, mem: Memory, depth: nat)
    requires depth < MAX_DYNAMIC_DEPTH && Context(d, chunks, mem)
    requires AgreesUpTo(data, img, 16) && PlainReached(d, Iface(nonEmpty), img, mem, depth)
    ensures forall addr ::
      Faithful(RenderValue(d, Iface(nonEmpty), data, addr, chunks, depth), View(d, Iface(nonEmpty), img, mem, depth))
    decreases MAX_DYNAMIC_DEPTH - depth, Iface(nonEmpty), 0
  {
    hide RenderDynamic, DynamicView, DynamicType, LiveDynamicType, PlainDynamic, Context, Faithful;
    if |data| >= 16 {
      HeaderAgrees(data, img);
      var typeAddr := WordAt(img, 0);
      WordBound(Known(img, 8, 8));
      if typeAddr != 0 && DynamicType(d, nonEmpty, typeAddr, chunks).Some? {
        ItabIsNoType(d, nonEmpty, img, mem, depth);
        var dyn := DynamicType(d, nonEmpty, typeAddr, chunks).value;
        SameDynamicType(d, nonEmpty, typeAddr, chunks, mem);
        RenderDynamicFaithful(d, dyn, WordAt(img, 8), chunks, mem, depth + 1);
      }
    }
    UnknownIsFaithful(View(d, Iface(nonEmpty), img, mem, depth));
  }

  lemma ItabIsNoType(d: Decoder, nonEmpty: bool, img: Image, mem: Memory, depth: nat)
    requires depth < MAX_DYNAMIC_DEPTH && PlainReached(d, Iface(nonEmpty), img, mem, depth)
    requires AllKnown(img, 0, 16) && WordAt(img, 0) != 0
    ensures nonEmpty ==> d.resolve(WordAt(img, 0)).None?
  {
  }

  lemma HeaderAgrees(data: Bytes, img: Image)
    requires AgreesUpTo(data, img, 16) && |data| >= 16
    ensures AllKnown(img, 0, 16) && WordAt(img, 0) == ReadUint(data) && WordAt(img, 8) == ReadUint(data[8..])
  {
    WordAgrees(data, img, 0, 16);
    WordAgrees(data, img, 8, 16);
    assert data[0..8] == data[..8] && data[8..][..8] == data[8..16];
  }

  /** A type found through the snapshot is the one found in memory, and a Go type. */
  lemma SameDynamicType(d: Decoder, nonEmpty: bool, typeAddr: nat, chunks: seq<Chunk>, mem: Memory)
    requires Context(d, chunks, mem) && DynamicType(d, nonEmpty, typeAddr, chunks).Some?
    requires nonEmpty ==> d.resolve(typeAddr).None?
    ensures LiveDynamicType(d, nonEmpty, typeAddr, mem) == DynamicType(d, nonEmpty, typeAddr, chunks)
    ensures WellFormed(DynamicType(d, nonEmpty, typeAddr, chunks).value)
  {
    if Read(chunks, (typeAddr + 8) % ADDRESSES, 8).Some? {
      ReadSound(chunks, (typeAddr + 8) % ADDRESSES, 8, mem);
    }
  }

  lemma UnknownIsFaithful(truth: Rendered)
    ensures Faithful(UnknownInterface, truth) && (truth == Nil ==> Faithful(Nil, truth))
  {
  }

  lemma {:induction false} RenderDynamicFaithful(d: Decoder, dyn: GoType, dataAddr: nat,
                                                 chunks: seq<Chunk>, mem: Memory, depth: nat)
    requires depth <= MAX_DYNAMIC_DEPTH && Context(d, chunks, mem)
    requires WellFormed(dyn) && PlainDynamic(d, dyn, dataAddr, mem, depth) && dataAddr < ADDRESSES
    ensures Faithful(RenderDynamic(d, dyn, dataAddr, chunks, depth), DynamicView(d, dyn, dataAddr, mem, depth))
    decreases MAX_DYNAMIC_DEPTH - depth
  {
    FetchPlanFacts(dyn);
    if IsDirect(dyn) {
      var word := PutUint64(dataAddr);
      AgreesWhole(dyn, word, Defined(word));
      RenderFaithful(d, dyn, word, dataAddr, Defined(word), chunks, mem, depth);
    } else {
      var size := Size(dyn);
      if 0 < size <= MAX_READ_SIZE && dataAddr != 0 && Read(chunks, dataAddr, size).Some? {
        var buf := Read(chunks, dataAddr, size).value;
        ReadSound(chunks, dataAddr, size, mem);
        AgreesWhole(dyn, buf, Live(mem, dataAddr, size));
        RenderFaithful(d, dyn, buf, dataAddr, Live(mem, dataAddr, size), chunks, mem, depth);
      }
    }
  }

  lemma {:induction false} FetchPlanFacts(t: GoType)
    ensures Size(Underlying(t)) == Size(t)
  {
    if t.Named? { FetchPlanFacts(t.base); }
  }

  lemma {:induction false} RenderFieldsFaithful(d: Decoder, t: GoType, fields: seq<Field>, obj: Bytes, addr: nat,
                                                img: Image, chunks: seq<Chunk>, mem: Memory, depth: nat)
    requires depth <= MAX_DYNAMIC_DEPTH && Context(d, chunks, mem)
    requires t.Struct? && WellFormed(t) && Size(t) <= |img| && forall f <- fields :: f in t.fields
    requires Agrees(t, obj, img) && Aligned(t, obj)
    requires addr < ADDRESSES && Located(addr, Size(t), img, mem)
    requires forall f <- fields | Visible(d, f) :: PlainReached(d, f.typ, Drop(img, f.offset), mem, depth)
    ensures FieldsFaithful(RenderFields(d, fields, obj, addr, chunks, depth), FieldViews(d, fields, img, mem, depth))
    decreases MAX_DYNAMIC_DEPTH - depth, fields
  {
    hide RenderValue, View, Faithful, FieldBytes, WellFormed, Agrees, Aligned, Located, Context, PlainReached, Size, Drop, FieldMem;
    if fields != [] {
      var f := fields[0];
      RenderFieldsFaithful(d, t, fields[1..], obj, addr, img, chunks, mem, depth);
      FieldAgrees(d, t, f, obj, addr, img, chunks, mem);
      var bytes := FieldBytes(f, obj, addr, chunks);
      var fieldAddr := (addr + f.offset) % ADDRESSES;
      UnavailableFaithful(View(d, f.typ, Drop(img, f.offset), mem, depth));
      if |bytes| > 0 && Visible(d, f) {
        RenderFaithful(d, f.typ, bytes, fieldAddr, Drop(img, f.offset), chunks, mem, depth);
      }
    }
  }

  lemma UnavailableFaithful(truth: Rendered)
    ensures Faithful(Unavailable, truth)
  {
  }

  lemma FieldAgrees(d: Decoder, t: GoType, f: Field, obj: Bytes, addr: nat, img: Image, chunks: seq<Chunk>, mem: Memory)
    requires Context(d, chunks, mem) && addr < ADDRESSES
    requires t.Struct? && WellFormed(t) && Size(t) <= |img| && f in t.fields
    requires Agrees(t, obj, img) && Aligned(t, obj) && Located(addr, Size(t), img, mem)
    ensures var bytes := FieldBytes(f, obj, addr, chunks);
            && WellFormed(f.typ)
            && Agrees(f.typ, bytes, Drop(img, f.offset))
            && Aligned(f.typ, bytes)
            && Size(f.typ) <= |Drop(img, f.offset)|
            && Located((addr + f.offset) % ADDRESSES, Size(f.typ), Drop(img, f.offset), mem)
  {
    assert FieldFits(f, t.size) && WellFormed(f.typ);
    WellFormedSize(f.typ);
    LocatedField(addr, t.size, f, img, mem);
    FieldAligned(t, f, obj);
    FieldBytesAgree(f, obj, addr, img, chunks, mem);
  }

  lemma FieldBytesAgree(f: Field, obj: Bytes, addr: nat, img: Image, chunks: seq<Chunk>, mem: Memory)
    requires Sound(chunks, mem) && LowPageUnmapped(mem) && addr < ADDRESSES
    requires WellFormed(f.typ) && 0 <= f.offset
    requires Agrees(f.typ, FieldMem(obj, f.offset), Drop(img, f.offset))
    requires Aligned(f.typ, FieldMem(obj, f.offset))
    requires Located((addr + f.offset) % ADDRESSES, Size(f.typ), Drop(img, f.offset), mem)
    ensures var bytes := FieldBytes(f, obj, addr, chunks);
            Agrees(f.typ, bytes, Drop(img, f.offset)) && Aligned(f.typ, bytes)
  {
    hide Agrees, WellFormed, Located, Read, Sound, LowPageUnmapped, HasPtr;
    var own, size, a := FieldMem(obj, f.offset), Size(f.typ), (addr + f.offset) % ADDRESSES;
    if 0 < size && |own| < size && addr != 0 && Read(chunks, a, size).Some? {
      LocatedRead(a, size, Drop(img, f.offset), chunks, mem);
      AgreesWhole(f.typ, Read(chunks, a, size).value, Drop(img, f.offset));
    }
  }

  lemma FieldAligned(t: GoType, f: Field, obj: Bytes)
    requires t.Struct? && f in t.fields && FieldFits(f, t.size) && Aligned(t, obj)
    ensures Aligned(f.typ, FieldMem(obj, f.offset))
  {
    if HasPtr(f.typ) {
      assert HasPtr(t);
    }
  }

  // ---- values held in registers ----

  /** A type word the program does not know is not followed by one that it does: the second word of a
   *  runtime type is a length. */
  predicate NoTypeBehind(d: Decoder, typeAddr: nat, mem: Memory)
  {
    d.resolve(typeAddr).Some?
    || match ReadUser(mem, (typeAddr + 8) % ADDRESSES, 8)
       case None => true
       case Some(w) => d.resolve(LittleEndian(w)).None?
  }

  /** That holds of every type word in a register value. */
  predicate RegisterTypes(d: Decoder, t: GoType, img: Image, mem: Memory)
    decreases t
  {
    match t
    case Named(b) => RegisterTypes(d, b, img, mem)
    case Iface(nonEmpty) => nonEmpty && AllKnown(img, 0, 16) ==> NoTypeBehind(d, WordAt(img, 0), mem)
    case Struct(_, fields, _) => forall f <- fields :: RegisterTypes(d, f.typ, Drop(img, f.offset), mem)
    case _ => true
  }

  lemma {:induction false} AgreesHeld(t: GoType, data: Bytes, img: Image)
    ensures Agrees(AsHeld(t), data, img) == Agrees(t, data, img)
    decreases t
  {
    match t
    case Named(b) => AgreesHeld(b, data, img);
    case Struct(_, fields, _) =>
      var held := FieldsAsHeld(fields);
      forall i | 0 <= i < |fields|
        ensures Agrees(held[i].typ, FieldMem(data, held[i].offset), Drop(img, held[i].offset))
             == Agrees(fields[i].typ, FieldMem(data, fields[i].offset), Drop(img, fields[i].offset))
        ensures held[i] in held && fields[i] in fields
      {
        AgreesHeld(fields[i].typ, FieldMem(data, fields[i].offset), Drop(img, fields[i].offset));
      }
    case _ =>
  }

  /** The decoder renders a register value as what it reads like: the fallback by which it would take
   *  a type word for an itab finds nothing. */
  lemma {:induction false} RenderHeld(d: Decoder, t: GoType, data: Bytes, addr: nat, img: Image,
                                      chunks: seq<Chunk>, mem: Memory, depth: nat)
    requires depth <= MAX_DYNAMIC_DEPTH && Context(d, chunks, mem)
    requires WellFormed(t) && Agrees(t, data, img) && Size(t) <= |img|
    requires Aligned(t, data) && RegisterTypes(d, t, img, mem)
    requires addr < ADDRESSES && (Underlying(t).Struct? ==> Located(addr, Size(t), img, mem))
    ensures RenderValue(d, t, data, addr, chunks, depth) == RenderValue(d, AsHeld(t), data, addr, chunks, depth)
    decreases t
  {
    hide RenderValue, Located, Agrees, WellFormed, Aligned, Context, RegisterTypes;
    match t
    case Named(b) =>
      HeldNamed(d, b, data, img, mem);
      RenderHeld(d, b, data, addr, img, chunks, mem, depth);
      NamedStep(d, b, data, addr, img, chunks, mem, depth);
      NamedStep(d, AsHeld(b), data, addr, img, chunks, mem, depth);
    case Iface(nonEmpty) =>
      PlainKind(t, data, img);
      HeldInterface(d, nonEmpty, data, addr, img, chunks, mem, depth);
    case Struct(_, _, _) =>
      if depth < MAX_DYNAMIC_DEPTH {
        var obj := ObjectBytes(t.size, data, addr, chunks);
        HeldParts(d, t, data, addr, img, chunks, mem);
        FieldsHeld(d, t, t.fields, obj, addr, img, chunks, mem, depth + 1);
        HeldStruct(d, t, data, addr, chunks, depth);
      } else {
        HeldTooDeep(d, t, data, addr, chunks);
      }
    case _ =>
  }

  lemma HeldNamed(d: Decoder, b: GoType, data: Bytes, img: Image, mem: Memory)
    ensures WellFormed(Named(b)) == WellFormed(b) && Agrees(Named(b), data, img) == Agrees(b, data, img)
    ensures Aligned(Named(b), data) == Aligned(b, data) && RegisterTypes(d, Named(b), img, mem) == RegisterTypes(d, b, img, mem)
  {
  }

  lemma HeldTooDeep(d: Decoder, t: GoType, data: Bytes, addr: nat, chunks: seq<Chunk>)
    ensures RenderValue(d, t, data, addr, chunks, MAX_DYNAMIC_DEPTH) == RenderValue(d, AsHeld(t), data, addr, chunks, MAX_DYNAMIC_DEPTH)
  {
  }

  lemma HeldStruct(d: Decoder, t: GoType, data: Bytes, addr: nat, chunks: seq<Chunk>, depth: nat)
    requires depth < MAX_DYNAMIC_DEPTH && t.Struct?
    requires var obj := ObjectBytes(t.size, data, addr, chunks);
             RenderFields(d, t.fields, obj, addr, chunks, depth + 1) == RenderFields(d, FieldsAsHeld(t.fields), obj, addr, chunks, depth + 1)
    ensures RenderValue(d, t, data, addr, chunks, depth) == RenderValue(d, AsHeld(t), data, addr, chunks, depth)
  {
    hide RenderFields, ObjectBytes;
  }

  lemma HeldParts(d: Decoder, t: GoType, data: Bytes, addr: nat, img: Image, chunks: seq<Chunk>, mem: Memory)
    requires Context(d, chunks, mem) && addr < ADDRESSES
    requires t.Struct? && WellFormed(t) && Agrees(t, data, img) && Size(t) <= |img|
    requires Aligned(t, data) && Located(addr, Size(t), img, mem) && RegisterTypes(d, t, img, mem)
    ensures forall f <- t.fields :: RegisterTypes(d, f.typ, Drop(img, f.offset), mem)
    ensures var obj := ObjectBytes(t.size, data, addr, chunks); Agrees(t, obj, img) && Aligned(t, obj)
  {
    hide Agrees, WellFormed, Located, Aligned;
    ObjectAgrees(t, data, addr, img, chunks, mem);
  }

  lemma HeldInterface(d: Decoder, nonEmpty: bool, data: Bytes, addr: nat, img: Image, chunks: seq<Chunk>, mem: Memory, depth: nat)
    requires depth <= MAX_DYNAMIC_DEPTH && Context(d, chunks, mem) && AgreesUpTo(data, img, 16)
    requires RegisterTypes(d, Iface(nonEmpty), img, mem)
    ensures RenderValue(d, Iface(nonEmpty), data, addr, chunks, depth) == RenderValue(d, Iface(false), data, addr, chunks, depth)
  {
    hide RenderDynamic;
    if |data| >= 16 && nonEmpty {
      HeaderAgrees(data, img);
      var typeAddr := ReadUint(data);
      if Read(chunks, (typeAddr + 8) % ADDRESSES, 8).Some? {
        ReadSound(chunks, (typeAddr + 8) % ADDRESSES, 8, mem);
      }
      assert DynamicType(d, true, typeAddr, chunks) == DynamicType(d, false, typeAddr, chunks);
    }
  }

  lemma {:induction false} FieldsHeld(d: Decoder, t: GoType, fields: seq<Field>, obj: Bytes, addr: nat,
                                      img: Image, chunks: seq<Chunk>, mem: Memory, depth: nat)
    requires depth <= MAX_DYNAMIC_DEPTH && Context(d, chunks, mem)
    requires t.Struct? && WellFormed(t) && Size(t) <= |img| && forall f <- fields :: f in t.fields
    requires Agrees(t, obj, img) && Aligned(t, obj)
    requires addr < ADDRESSES && Located(addr, Size(t), img, mem)
    requires forall f <- fields :: RegisterTypes(d, f.typ, Drop(img, f.offset), mem)
    ensures RenderFields(d, fields, obj, addr, chunks, depth) == RenderFields(d, FieldsAsHeld(fields), obj, addr, chunks, depth)
    decreases fields
  {
    hide RenderValue, FieldBytes, WellFormed, Agrees, Aligned, Located, Context, RegisterTypes;
    if fields != [] {
      var f, held := fields[0], FieldsAsHeld(fields);
      FieldsHeld(d, t, fields[1..], obj, addr, img, chunks, mem, depth);
      assert held[1..] == FieldsAsHeld(fields[1..]);
      FieldAgrees(d, t, f, obj, addr, img, chunks, mem);
      HeldBytes(f, obj, addr, chunks);
      RenderHeld(d, f.typ, FieldBytes(f, obj, addr, chunks), (addr + f.offset) % ADDRESSES, Drop(img, f.offset), chunks, mem, depth);
    }
  }

  /** A type without interfaces is held as it is. */
  lemma {:induction false} FreeHeld(d: Decoder, ids: iset<TypeId>, t: GoType, img: Image, mem: Memory)
    requires InterfaceFree(t, ids)
    ensures AsHeld(t) == t && RegisterTypes(d, t, img, mem)
    decreases t
  {
    match t
    case Named(b) => FreeHeld(d, ids, b, img, mem);
    case Struct(_, fields, _) =>
      forall i | 0 <= i < |fields|
        ensures FieldsAsHeld(fields)[i] == fields[i]
        ensures RegisterTypes(d, fields[i].typ, Drop(img, fields[i].offset), mem)
      {
        assert fields[i] in fields;
        FreeHeld(d, ids, fields[i].typ, Drop(img, fields[i].offset), mem);
      }
      assert FieldsAsHeld(fields) == fields;
    case _ =>
  }

  /** Where no runtime type is known, what an interface's first word is makes no difference. */
  lemma {:induction false} NothingHeld(d: Decoder, t: GoType, img: Image, mem: Memory, depth: nat)
    requires depth <= MAX_DYNAMIC_DEPTH && forall a :: d.resolve(a).None?
    ensures RegisterTypes(d, t, img, mem) && View(d, AsHeld(t), img, mem, depth) == View(d, t, img, mem, depth)
    decreases t
  {
    hide DynamicView, Live, WordAt, Known;
    match t
    case Named(b) => NothingHeld(d, b, img, mem, depth);
    case Struct(_, fields, _) =>
      forall f | f in fields
        ensures RegisterTypes(d, f.typ, Drop(img, f.offset), mem)
      {
        NothingHeld(d, f.typ, Drop(img, f.offset), mem, depth);
      }
      if depth < MAX_DYNAMIC_DEPTH {
        NothingFieldsHeld(d, fields, img, mem, depth + 1);
      }
    case _ =>
  }

  lemma {:induction false} NothingFieldsHeld(d: Decoder, fields: seq<Field>, img: Image, mem: Memory, depth: nat)
    requires depth <= MAX_DYNAMIC_DEPTH && forall a :: d.resolve(a).None?
    ensures FieldViews(d, FieldsAsHeld(fields), img, mem, depth) == FieldViews(d, fields, img, mem, depth)
    decreases fields
  {
    hide View;
    if fields != [] {
      assert FieldsAsHeld(fields)[1..] == FieldsAsHeld(fields[1..]);
      NothingHeld(d, fields[0].typ, Drop(img, fields[0].offset), mem, depth);
      NothingFieldsHeld(d, fields[1..], img, mem, depth);
    }
  }

  lemma HeldBytes(f: Field, obj: Bytes, addr: nat, chunks: seq<Chunk>)
    ensures FieldBytes(f.(typ := AsHeld(f.typ)), obj, addr, chunks) == FieldBytes(f, obj, addr, chunks)
  {
    HeldLayout(f.typ);
  }
}
