/** Exactly what is shown: what can be told of a value by someone who has its first bytes and copies
 *  of 64 bytes at some addresses. Rendering shows that, no less and no more. */
module Glimpses {
  import opened Wrappers
  import opened Words
  import opened GoTypes
  import opened FetchRules
  import opened TargetMemory
  import opened Snapshot
  import opened Render
  import opened LiveView

  const COPY := 64

  /** The first copy that has the byte at `addr` has `n` bytes from there on. */
  predicate Seen(copies: seq<nat>, addr: nat, n: nat)
  {
    copies != [] &&
      if copies[0] <= addr < copies[0] + COPY < ADDRESSES then addr + n <= copies[0] + COPY
      else Seen(copies[1..], addr, n)
  }

  function SeenText(mem: Memory, copies: seq<nat>, addr: nat, len: int): Option<Rendered>
    requires len > 0
  {
    if Seen(copies, addr, if len > 64 then 64 else len) then LiveText(mem, addr, len) else None
  }

  /** How many bytes of an object are in hand: all of them if a copy has them all. */
  function InHand(size: int, addr: nat, have: nat, copies: seq<nat>): (n: nat)
  {
    if size <= 0 then have
    else if addr != 0 && size <= 4096 && Seen(copies, addr, size) then size
    else if have >= size then size
    else have
  }

  /** How many bytes of a field, `have` being in hand of the object at `addr`. */
  function FieldInHand(f: Field, addr: nat, have: nat, copies: seq<nat>): (n: nat)
  {
    var own := if 0 <= f.offset < have then have - f.offset else 0;
    if 0 <= f.offset && 0 < Size(f.typ) && own < Size(f.typ) && addr != 0 && Seen(copies, (addr + f.offset) % ADDRESSES, Size(f.typ))
    then Size(f.typ)
    else own
  }

  /** `View` where bytes are missing: of the value at `addr` the first `have` are in hand, and what it
   *  leads to is only what copies have. */
  function Glimpse(d: Decoder, t: GoType, img: Image, addr: nat, have: nat, mem: Memory, copies: seq<nat>, depth: nat): Rendered
    requires depth <= 8
    decreases 8 - depth, t
  {
    if depth >= 8 then TooDeep
    else
      match t
      case Named(b) => Glimpse(d, b, img, addr, have, mem, copies, depth)
      case Scalar(kind, n) => if have >= n && AllKnown(img, 0, n) then Number(kind, Known(img, 0, n)) else Unavailable
      case Ptr(id) =>
        if have < 8 || !AllKnown(img, 0, 8) then Unavailable
        else if WordAt(img, 0) == 0 then Nil
        else
          var p, size := WordAt(img, 0), Size(d.env(id));
          if 0 < size <= 4096 && Seen(copies, p, size) then
            Ref(Glimpse(d, d.env(id), Live(mem, p, size), p, size, mem, copies, depth + 1))
          else Unavailable
      case Str =>
        if have < 16 || !AllKnown(img, 0, 16) then Unavailable
        else
          var len := Signed64(WordAt(img, 8));
          if len == 0 then Text([], false)
          else if len < 0 then Unavailable
          else SeenText(mem, copies, WordAt(img, 0), len).GetOr(Unavailable)
      case Slice(name, byteElements) =>
        if have < 24 || !AllKnown(img, 0, 24) then Unavailable
        else
          var arr, len := WordAt(img, 0), Signed64(WordAt(img, 8));
          SliceView(name, len, Signed64(WordAt(img, 16)),
                    if byteElements && len > 0 && arr != 0 then SeenText(mem, copies, arr, len) else None)
      case Iface(nonEmpty) =>
        if have < 16 || !AllKnown(img, 0, 16) then UnknownInterface
        else if WordAt(img, 0) == 0 then Nil
        else
          var dyn := if nonEmpty && !Seen(copies, (WordAt(img, 0) + 8) % ADDRESSES, 8) then None
                     else LiveDynamicType(d, nonEmpty, WordAt(img, 0), mem);
          if dyn.None? then UnknownInterface
          else DynamicGlimpse(d, dyn.value, WordAt(img, 8), mem, copies, depth + 1)
      case Struct(name, fields, size) =>
        Fields(name, FieldGlimpses(d, fields, img, addr, InHand(size, addr, have, copies), mem, copies, depth + 1))
      case Opaque(_) => Unavailable
  }

  function DynamicGlimpse(d: Decoder, dyn: GoType, dataAddr: nat, mem: Memory, copies: seq<nat>, depth: nat): Rendered
    requires depth <= 8
    decreases 8 - depth
  {
    var size := Size(dyn);
    if IsDirect(dyn) then
      if Underlying(dyn).Ptr? && dataAddr == 0 then TypedNil
      else Glimpse(d, dyn, Defined(PutUint64(dataAddr)), dataAddr, 8, mem, copies, depth)
    else if dataAddr != 0 && 0 < size <= 4096 && Seen(copies, dataAddr, size) then
      Glimpse(d, dyn, Live(mem, dataAddr, size), dataAddr, size, mem, copies, depth)
    else Unavailable
  }

  function FieldGlimpses(d: Decoder, fields: seq<Field>, img: Image, addr: nat, have: nat, mem: Memory, copies: seq<nat>, depth: nat)
    : seq<NamedValue>
    requires depth <= 8
    decreases 8 - depth, fields
  {
    if fields == [] then []
    else
      var f := fields[0];
      var rest := FieldGlimpses(d, fields[1..], img, addr, have, mem, copies, depth);
      if !Visible(d, f) then rest
      else
        var got := FieldInHand(f, addr, have, copies);
        var shown := if got == 0 then Unavailable
                     else Glimpse(d, f.typ, Drop(img, f.offset), (addr + f.offset) % ADDRESSES, got, mem, copies, depth);
        [NamedValue(f.name, shown)] + rest
  }

  // ---- the snapshot against the copies ----

  /** The snapshot holds these copies, in this order. */
  ghost predicate Mirrors(chunks: seq<Chunk>, copies: seq<nat>)
  {
    |chunks| == |copies| && forall i | 0 <= i < |chunks| :: chunks[i].addr == copies[i] && |chunks[i].data| == COPY
  }

  lemma {:induction false} ReadIsSeen(chunks: seq<Chunk>, copies: seq<nat>, addr: nat, n: nat)
    requires Mirrors(chunks, copies)
    ensures Read(chunks, addr, n).Some? == Seen(copies, addr, n)
  {
    if chunks != [] {
      assert chunks[0].addr == copies[0];
      OneCopy(chunks[0], addr);
      if !Covers(chunks[0], addr) { ReadIsSeen(chunks[1..], copies[1..], addr, n); }
    }
  }

  lemma OneCopy(c: Chunk, addr: nat)
    requires |c.data| == COPY
    ensures Covers(c, addr) <==> c.addr <= addr < c.addr + COPY < ADDRESSES
  {
  }

  /** What a read returns is in memory. */
  lemma ReadIsLive(chunks: seq<Chunk>, copies: seq<nat>, mem: Memory, addr: nat, n: nat)
    requires Mirrors(chunks, copies) && Sound(chunks, mem)
    ensures Read(chunks, addr, n) == (if Seen(copies, addr, n) then ReadUser(mem, addr, n) else None)
    ensures Seen(copies, addr, n) ==> ReadUser(mem, addr, n).Some?
  {
    ReadIsSeen(chunks, copies, addr, n);
    if Seen(copies, addr, n) { ReadSound(chunks, addr, n, mem); }
  }

  // ---- rendering is glimpsing ----

  /** The same bytes in hand, as far as the type is concerned. */
  predicate SameInHand(t: GoType, n: nat, have: nat)
  {
    n == have || (n >= 1 && have >= 1 && n >= Size(t) && have >= Size(t))
  }

  ghost predicate Backed(d: Decoder, chunks: seq<Chunk>, copies: seq<nat>, mem: Memory)
  {
    Context(d, chunks, mem) && Mirrors(chunks, copies)
  }

  /** Rendering over a true snapshot of 64-byte copies shows exactly what can be told from them. */
  lemma {:induction false} RenderIsGlimpse(d: Decoder, t: GoType, data: Bytes, have: nat, addr: nat, img: Image,
                                           chunks: seq<Chunk>, copies: seq<nat>, mem: Memory, depth: nat)
    requires depth <= 8 && Backed(d, chunks, copies, mem) && SameInHand(t, |data|, have)
    requires WellFormed(t) && Agrees(t, data, img) && Size(t) <= |img|
    requires 0 < |data| && Aligned(t, data) && PlainReached(d, t, img, mem, depth)
    requires addr < ADDRESSES && (Underlying(t).Struct? ==> Located(addr, Size(t), img, mem))
    ensures RenderValue(d, t, data, addr, chunks, depth) == Glimpse(d, t, img, addr, have, mem, copies, depth)
    decreases 8 - depth, t
  {
    hide RenderValue, Glimpse, Located, Agrees, PlainReached, WellFormed, Aligned, Backed;
    if depth == 8 {
      BothTooDeep(d, t, data, have, addr, img, chunks, copies, mem);
    } else {
      match t
      case Named(b) =>
        NamedKind(d, b, data, img, mem, depth);
        RenderIsGlimpse(d, b, data, have, addr, img, chunks, copies, mem, depth);
        NamedGlimpse(d, b, data, have, addr, img, chunks, copies, mem, depth);
      case Struct(_, _, _) => StructIsGlimpse(d, t, data, have, addr, img, chunks, copies, mem, depth);
      case Ptr(id) =>
        PointerKind(id, data, img);
        PointerIsGlimpse(d, id, data, have, addr, img, chunks, copies, mem, depth);
      case Iface(nonEmpty) =>
        PlainKind(t, data, img);
        IfaceIsGlimpse(d, nonEmpty, data, have, addr, img, chunks, copies, mem, depth);
      case Str =>
        PlainKind(t, data, img);
        StringIsGlimpse(d, data, have, addr, img, chunks, copies, mem, depth);
      case Slice(_, _) =>
        PlainKind(t, data, img);
        SliceIsGlimpse(d, t, data, have, addr, img, chunks, copies, mem, depth);
      case _ => ScalarIsGlimpse(d, t, data, have, addr, img, chunks, copies, mem, depth);
    }
  }

  lemma BothTooDeep(d: Decoder, t: GoType, data: Bytes, have: nat, addr: nat, img: Image, chunks: seq<Chunk>, copies: seq<nat>, mem: Memory)
    ensures RenderValue(d, t, data, addr, chunks, 8) == Glimpse(d, t, img, addr, have, mem, copies, 8)
  {
  }

  lemma NamedGlimpse(d: Decoder, b: GoType, data: Bytes, have: nat, addr: nat, img: Image, chunks: seq<Chunk>, copies: seq<nat>,
                     mem: Memory, depth: nat)
    requires depth <= 8
    ensures RenderValue(d, Named(b), data, addr, chunks, depth) == RenderValue(d, b, data, addr, chunks, depth)
    ensures Glimpse(d, Named(b), img, addr, have, mem, copies, depth) == Glimpse(d, b, img, addr, have, mem, copies, depth)
  {
  }

  lemma ScalarIsGlimpse(d: Decoder, t: GoType, data: Bytes, have: nat, addr: nat, img: Image, chunks: seq<Chunk>, copies: seq<nat>,
                        mem: Memory, depth: nat)
    requires depth < 8 && (t.Scalar? || t.Opaque?) && Agrees(t, data, img) && SameInHand(t, |data|, have)
    ensures RenderValue(d, t, data, addr, chunks, depth) == Glimpse(d, t, img, addr, have, mem, copies, depth)
  {
    if t.Scalar? && t.bytes <= |data| {
      forall i | 0 <= i < t.bytes
        ensures i < |img| && img[i] == Some(data[i])
      {
        var b := data[i];
      }
      assert t.bytes <= |img| by {
        if t.bytes > 0 { var last := data[t.bytes - 1]; }
      }
      assert Known(img, 0, t.bytes) == data[..t.bytes];
    }
  }

  /** A text is shown if a copy has it. */
  lemma TextIsSeen(addr: nat, len: int, chunks: seq<Chunk>, copies: seq<nat>, mem: Memory)
    requires Mirrors(chunks, copies) && Sound(chunks, mem) && len > 0
    ensures RenderText(addr, len, chunks) == SeenText(mem, copies, addr, len)
  {
    hide Read, Seen;
    ReadIsLive(chunks, copies, mem, addr, if len > 64 then 64 else len);
  }

  lemma StringIsGlimpse(d: Decoder, data: Bytes, have: nat, addr: nat, img: Image, chunks: seq<Chunk>, copies: seq<nat>,
                        mem: Memory, depth: nat)
    requires depth < 8 && Backed(d, chunks, copies, mem) && AgreesUpTo(data, img, 16) && SameInHand(Str, |data|, have)
    ensures RenderValue(d, Str, data, addr, chunks, depth) == Glimpse(d, Str, img, addr, have, mem, copies, depth)
  {
    hide RenderText, SeenText, Read, Seen;
    if |data| >= 16 {
      WordAgrees(data, img, 0, 16);
      WordAgrees(data, img, 8, 16);
      assert data[8..16][..8] == data[8..16];
      assert AllKnown(img, 0, 16);
      var len := Signed64(WordAt(img, 8));
      if len > 0 { TextIsSeen(WordAt(img, 0), len, chunks, copies, mem); }
    }
  }

  lemma SliceIsGlimpse(d: Decoder, t: GoType, data: Bytes, have: nat, addr: nat, img: Image, chunks: seq<Chunk>, copies: seq<nat>,
                       mem: Memory, depth: nat)
    requires depth < 8 && Backed(d, chunks, copies, mem)
    requires t.Slice? && AgreesUpTo(data, img, 24) && SameInHand(t, |data|, have)
    ensures RenderValue(d, t, data, addr, chunks, depth) == Glimpse(d, t, img, addr, have, mem, copies, depth)
  {
    hide RenderText, SeenText, Read, Seen;
    if |data| >= 24 {
      WordAgrees(data, img, 0, 24);
      WordAgrees(data, img, 8, 24);
      WordAgrees(data, img, 16, 24);
      assert data[8..16][..8] == data[8..16] && data[16..24][..8] == data[16..24];
      assert AllKnown(img, 0, 24);
      var len := Signed64(WordAt(img, 8));
      if len > 0 { TextIsSeen(WordAt(img, 0), len, chunks, copies, mem); }
    }
  }

  lemma {:induction false} PointerIsGlimpse(d: Decoder, id: TypeId, data: Bytes, have: nat, addr: nat, img: Image, chunks: seq<Chunk>,
                                            copies: seq<nat>, mem: Memory, depth: nat)
    requires depth < 8 && Backed(d, chunks, copies, mem) && SameInHand(Ptr(id), |data|, have)
    requires AgreesUpTo(data, img, 8) && |data| >= 8 && PlainReached(d, Ptr(id), img, mem, depth)
    ensures RenderValue(d, Ptr(id), data, addr, chunks, depth) == Glimpse(d, Ptr(id), img, addr, have, mem, copies, depth)
    decreases 8 - depth, Ptr(id), 0
  {
    hide RenderValue, Glimpse, PlainReached, Context, Located, Live, WellFormed, Agrees, Aligned, Read, Seen;
    WordAgrees(data, img, 0, 8);
    assert data[0..8] == data[..8];
    var ptr, size := ReadUint(data), Size(d.env(id));
    if ptr != 0 && 0 < size <= 4096 {
      SoundContext(d, chunks, mem);
      ReadIsLive(chunks, copies, mem, ptr, size);
      if Read(chunks, ptr, size).Some? {
        var buf := Read(chunks, ptr, size).value;
        WordBound(Known(img, 0, 8));
        PointeePlainReached(d, id, img, mem, depth);
        PointeeRead(d, id, ptr, buf, chunks, mem);
        RenderIsGlimpse(d, d.env(id), buf, size, ptr, Live(mem, ptr, size), chunks, copies, mem, depth + 1);
      }
    }
    PointerGlimpse(d, id, data, have, addr, img, chunks, copies, mem, depth);
  }

  lemma SoundContext(d: Decoder, chunks: seq<Chunk>, mem: Memory)
    requires Context(d, chunks, mem)
    ensures Sound(chunks, mem) && LowPageUnmapped(mem) && WellFormedEnv(d.env)
  {
  }

  lemma PointerGlimpse(d: Decoder, id: TypeId, data: Bytes, have: nat, addr: nat, img: Image, chunks: seq<Chunk>, copies: seq<nat>,
                       mem: Memory, depth: nat)
    requires depth < 8 && AllKnown(img, 0, 8) && WordAt(img, 0) == ReadUint(data) && have >= 8
    requires var ptr, size := ReadUint(data), Size(d.env(id));
             ptr != 0 && 0 < size <= 4096 ==>
               && Read(chunks, ptr, size).Some? == Seen(copies, ptr, size)
               && (Seen(copies, ptr, size) ==>
                     RenderValue(d, d.env(id), Read(chunks, ptr, size).value, ptr, chunks, depth + 1)
                     == Glimpse(d, d.env(id), Live(mem, ptr, size), ptr, size, mem, copies, depth + 1))
    ensures RenderValue(d, Ptr(id), data, addr, chunks, depth) == Glimpse(d, Ptr(id), img, addr, have, mem, copies, depth)
  {
    hide Live, Read, Seen;
  }

  lemma {:induction false} IfaceIsGlimpse(d: Decoder, nonEmpty: bool, data: Bytes, have: nat, addr: nat, img: Image, chunks: seq<Chunk>,
                                          copies: seq<nat>, mem: Memory, depth: nat)
    requires depth < 8 && Backed(d, chunks, copies, mem) && SameInHand(Iface(nonEmpty), |data|, have)
    requires AgreesUpTo(data, img, 16) && PlainReached(d, Iface(nonEmpty), img, mem, depth)
    ensures RenderValue(d, Iface(nonEmpty), data, addr, chunks, depth) == Glimpse(d, Iface(nonEmpty), img, addr, have, mem, copies, depth)
    decreases 8 - depth, Iface(nonEmpty), 0
  {
    hide RenderDynamic, DynamicGlimpse, DynamicType, LiveDynamicType, PlainDynamic, Context, Seen, WellFormed;
    if |data| >= 16 {
      HeaderAgrees(data, img);
      var typeAddr := WordAt(img, 0);
      WordBound(Known(img, 8, 8));
      if typeAddr != 0 {
        ItabIsNoType(d, nonEmpty, img, mem, depth);
        TypeSeen(d, nonEmpty, typeAddr, chunks, copies, mem);
        if DynamicType(d, nonEmpty, typeAddr, chunks).Some? {
          SameDynamicType(d, nonEmpty, typeAddr, chunks, mem);
          DynamicIsGlimpse(d, DynamicType(d, nonEmpty, typeAddr, chunks).value, WordAt(img, 8), chunks, copies, mem, depth + 1);
        }
      }
    }
  }

  lemma TypeSeen(d: Decoder, nonEmpty: bool, typeAddr: nat, chunks: seq<Chunk>, copies: seq<nat>, mem: Memory)
    requires Backed(d, chunks, copies, mem) && (nonEmpty ==> d.resolve(typeAddr).None?)
    ensures DynamicType(d, nonEmpty, typeAddr, chunks)
         == if nonEmpty && !Seen(copies, (typeAddr + 8) % ADDRESSES, 8) then None else LiveDynamicType(d, nonEmpty, typeAddr, mem)
  {
    ReadIsLive(chunks, copies, mem, (typeAddr + 8) % ADDRESSES, 8);
  }

  lemma {:induction false} DynamicIsGlimpse(d: Decoder, dyn: GoType, dataAddr: nat, chunks: seq<Chunk>, copies: seq<nat>, mem: Memory, depth: nat)
    requires depth <= 8 && Backed(d, chunks, copies, mem)
    requires WellFormed(dyn) && PlainDynamic(d, dyn, dataAddr, mem, depth) && dataAddr < ADDRESSES
    ensures RenderDynamic(d, dyn, dataAddr, chunks, depth) == DynamicGlimpse(d, dyn, dataAddr, mem, copies, depth)
    decreases 8 - depth
  {
    hide Read, Seen, RenderValue, Glimpse;
    FetchPlanFacts(dyn);
    var size := Size(dyn);
    if IsDirect(dyn) {
      var word := PutUint64(dataAddr);
      AgreesWhole(dyn, word, Defined(word));
      RenderIsGlimpse(d, dyn, word, 8, dataAddr, Defined(word), chunks, copies, mem, depth);
    } else if 0 < size <= 4096 && dataAddr != 0 {
      ReadIsLive(chunks, copies, mem, dataAddr, size);
      if Read(chunks, dataAddr, size).Some? {
        var buf := Read(chunks, dataAddr, size).value;
        AgreesWhole(dyn, buf, Live(mem, dataAddr, size));
        RenderIsGlimpse(d, dyn, buf, size, dataAddr, Live(mem, dataAddr, size), chunks, copies, mem, depth);
      }
    }
  }

  lemma {:induction false} StructIsGlimpse(d: Decoder, t: GoType, data: Bytes, have: nat, addr: nat, img: Image, chunks: seq<Chunk>,
                                           copies: seq<nat>, mem: Memory, depth: nat)
    requires depth < 8 && Backed(d, chunks, copies, mem) && t.Struct? && SameInHand(t, |data|, have)
    requires WellFormed(t) && Agrees(t, data, img) && Size(t) <= |img|
    requires Aligned(t, data) && PlainReached(d, t, img, mem, depth)
    requires addr < ADDRESSES && Located(addr, Size(t), img, mem)
    ensures RenderValue(d, t, data, addr, chunks, depth) == Glimpse(d, t, img, addr, have, mem, copies, depth)
    decreases 8 - depth, t, 0
  {
    hide RenderValue, Glimpse, RenderFields, FieldGlimpses, Located, Agrees, Aligned, WellFormed, PlainReached, Seen, Read;
    var obj := ObjectBytes(t.size, data, addr, chunks);
    SoundContext(d, chunks, mem);
    ObjectAgrees(t, data, addr, img, chunks, mem);
    FieldsPlain(d, t, img, mem, depth);
    ReadIsSeen(chunks, copies, addr, if t.size < 0 then 0 else t.size);
    ObjectInHand(t, data, have, addr, chunks, copies);
    FieldsAreGlimpses(d, t, t.fields, obj, InHand(t.size, addr, have, copies), addr, img, chunks, copies, mem, depth + 1);
    StructGlimpse(d, t, data, have, addr, img, chunks, copies, mem, depth);
  }

  lemma StructGlimpse(d: Decoder, t: GoType, data: Bytes, have: nat, addr: nat, img: Image, chunks: seq<Chunk>, copies: seq<nat>,
                      mem: Memory, depth: nat)
    requires depth < 8 && t.Struct?
    requires RenderFields(d, t.fields, ObjectBytes(t.size, data, addr, chunks), addr, chunks, depth + 1)
          == FieldGlimpses(d, t.fields, img, addr, InHand(t.size, addr, have, copies), mem, copies, depth + 1)
    ensures RenderValue(d, t, data, addr, chunks, depth) == Glimpse(d, t, img, addr, have, mem, copies, depth)
  {
    hide RenderFields, FieldGlimpses, ObjectBytes, InHand;
  }

  /** The same bytes of an object in hand, as far as its fields are concerned. */
  predicate SameObject(size: int, n: nat, have: nat)
  {
    n == have || (size <= 0 && n >= 1 && have >= 1)
  }

  lemma ObjectInHand(t: GoType, data: Bytes, have: nat, addr: nat, chunks: seq<Chunk>, copies: seq<nat>)
    requires t.Struct? && SameInHand(t, |data|, have)
    requires Read(chunks, addr, if t.size < 0 then 0 else t.size).Some? == Seen(copies, addr, if t.size < 0 then 0 else t.size)
    ensures SameObject(t.size, |ObjectBytes(t.size, data, addr, chunks)|, InHand(t.size, addr, have, copies))
  {
    hide Read, Seen;
  }

  lemma {:induction false} FieldsAreGlimpses(d: Decoder, t: GoType, fields: seq<Field>, obj: Bytes, have: nat, addr: nat, img: Image,
                                             chunks: seq<Chunk>, copies: seq<nat>, mem: Memory, depth: nat)
    requires depth <= 8 && Backed(d, chunks, copies, mem)
    requires t.Struct? && WellFormed(t) && Size(t) <= |img| && forall f <- fields :: f in t.fields
    requires Agrees(t, obj, img) && Aligned(t, obj) && SameObject(t.size, |obj|, have)
    requires addr < ADDRESSES && Located(addr, Size(t), img, mem)
    requires forall f <- fields | Visible(d, f) :: PlainReached(d, f.typ, Drop(img, f.offset), mem, depth)
    ensures RenderFields(d, fields, obj, addr, chunks, depth) == FieldGlimpses(d, fields, img, addr, have, mem, copies, depth)
    decreases 8 - depth, fields
  {
    hide RenderValue, Glimpse, FieldBytes, FieldInHand, WellFormed, Agrees, Aligned, Located, Context, PlainReached, Size, Drop, FieldMem, Mirrors;
    if fields != [] {
      var f := fields[0];
      FieldsAreGlimpses(d, t, fields[1..], obj, have, addr, img, chunks, copies, mem, depth);
      FieldAgrees(d, t, f, obj, addr, img, chunks, mem);
      FieldGot(t, f, obj, have, addr, chunks, copies);
      if |FieldBytes(f, obj, addr, chunks)| > 0 && Visible(d, f) {
        RenderIsGlimpse(d, f.typ, FieldBytes(f, obj, addr, chunks), FieldInHand(f, addr, have, copies), (addr + f.offset) % ADDRESSES,
                        Drop(img, f.offset), chunks, copies, mem, depth);
      }
    }
  }

  /** As many bytes of a field as the copies say. */
  lemma FieldGot(t: GoType, f: Field, obj: Bytes, have: nat, addr: nat, chunks: seq<Chunk>, copies: seq<nat>)
    requires t.Struct? && WellFormed(t) && f in t.fields && SameObject(t.size, |obj|, have) && Mirrors(chunks, copies)
    ensures var n, got := |FieldBytes(f, obj, addr, chunks)|, FieldInHand(f, addr, have, copies);
            SameInHand(f.typ, n, got) && (n == 0 <==> got == 0)
  {
    hide Read, Seen, Mirrors, WellFormed;
    assert FieldFits(f, t.size) && WellFormed(f.typ) by { FieldWell(t, f); }
    WellFormedSize(f.typ);
    ReadIsSeen(chunks, copies, (addr + f.offset) % ADDRESSES, Size(f.typ));
  }

  lemma FieldWell(t: GoType, f: Field)
    requires t.Struct? && WellFormed(t) && f in t.fields
    ensures FieldFits(f, t.size) && WellFormed(f.typ)
  {
  }

  // ---- when that is all there is ----

  /** Nothing of a string is missing: it is empty, or unreadable anyway, or a copy has its text. */
  predicate WholeText(mem: Memory, copies: seq<nat>, addr: nat, len: int)
  {
    var n := if len > 64 then 64 else len;
    len > 0 ==> Seen(copies, addr, n) || !Readable(mem, addr, n)
  }

  /** Nothing of the value is missing: every part that a live reading would show is in hand or in the
   *  copies. For types that lead to no interface. */
  predicate Whole(d: Decoder, t: GoType, img: Image, addr: nat, have: nat, mem: Memory, copies: seq<nat>, depth: nat)
    requires depth <= 8
    decreases 8 - depth, t
  {
    depth < 8 ==>
      match t
      case Named(b) => Whole(d, b, img, addr, have, mem, copies, depth)
      case Scalar(_, n) => have >= n || !AllKnown(img, 0, n)
      case Ptr(id) =>
        AllKnown(img, 0, 8) ==>
          var p, size := WordAt(img, 0), Size(d.env(id));
          if p == 0 then have >= 8
          else 0 < size <= 4096 ==>
            have >= 8 && Seen(copies, p, size) && Whole(d, d.env(id), Live(mem, p, size), p, size, mem, copies, depth + 1)
      case Str =>
        AllKnown(img, 0, 16) ==>
          var len := Signed64(WordAt(img, 8));
          if have >= 16 then WholeText(mem, copies, WordAt(img, 0), len)
          else len != 0 && WholeText(mem, [], WordAt(img, 0), len)
      case Slice(_, byteElements) =>
        AllKnown(img, 0, 24) ==>
          && have >= 24
          && (byteElements && WordAt(img, 0) != 0 ==> WholeText(mem, copies, WordAt(img, 0), Signed64(WordAt(img, 8))))
      case Struct(_, fields, size) =>
        var n := InHand(size, addr, have, copies);
        forall f <- fields | Visible(d, f) :: WholeField(d, f, img, addr, n, mem, copies, depth + 1)
      case Iface(_) => true
      case Opaque(_) => true
  }

  predicate WholeField(d: Decoder, f: Field, img: Image, addr: nat, have: nat, mem: Memory, copies: seq<nat>, depth: nat)
    requires depth <= 8
    decreases 8 - depth, f
  {
    var got := FieldInHand(f, addr, have, copies);
    && Whole(d, f.typ, Drop(img, f.offset), (addr + f.offset) % ADDRESSES, got, mem, copies, depth)
    && (got == 0 ==> !Underlying(f.typ).Struct? && depth < 8)
  }

  lemma TextWhole(mem: Memory, copies: seq<nat>, addr: nat, len: int)
    requires len > 0
    ensures SeenText(mem, copies, addr, len) == LiveText(mem, addr, len) <==> WholeText(mem, copies, addr, len)
  {
    hide Seen;
  }

  /** What can be told of it is the value if and only if nothing of it is missing. */
  lemma {:induction false} GlimpseIsViewIff(d: Decoder, ids: iset<TypeId>, t: GoType, img: Image, addr: nat, have: nat, mem: Memory,
                                            copies: seq<nat>, depth: nat)
    requires depth <= 8 && InterfaceFree(t, ids) && InterfacesUnreachable(d, ids) && WellFormed(t) && WellFormedEnv(d.env)
    ensures Glimpse(d, t, img, addr, have, mem, copies, depth) == View(d, t, img, mem, depth)
       <==> Whole(d, t, img, addr, have, mem, copies, depth)
    decreases 8 - depth, t, 1
  {
    hide Seen, InterfacesUnreachable, Live, FieldGlimpses, FieldViews, WholeField, InHand, WellFormedEnv;
    if depth < 8 {
      match t
      case Named(b) => GlimpseIsViewIff(d, ids, b, img, addr, have, mem, copies, depth);
      case Ptr(id) => PointerWhole(d, ids, id, img, addr, have, mem, copies, depth);
      case Str => StringWhole(d, img, addr, have, mem, copies, depth);
      case Slice(_, _) => SliceWhole(d, t, img, addr, have, mem, copies, depth);
      case Struct(_, fields, size) =>
        FieldsWhole(d, ids, fields, img, addr, InHand(size, addr, have, copies), mem, copies, depth + 1);
      case _ =>
    }
  }

  lemma StringWhole(d: Decoder, img: Image, addr: nat, have: nat, mem: Memory, copies: seq<nat>, depth: nat)
    requires depth < 8
    ensures Glimpse(d, Str, img, addr, have, mem, copies, depth) == View(d, Str, img, mem, depth)
       <==> Whole(d, Str, img, addr, have, mem, copies, depth)
  {
    hide Seen, SeenText, LiveText;
    if AllKnown(img, 0, 16) {
      var p, len := WordAt(img, 0), Signed64(WordAt(img, 8));
      if len > 0 {
        TextWhole(mem, copies, p, len);
        TextIsText(mem, copies, p, len);
        NothingSeen(mem, p, len);
      }
    }
  }

  lemma TextIsText(mem: Memory, copies: seq<nat>, addr: nat, len: int)
    requires len > 0
    ensures SeenText(mem, copies, addr, len).Some? ==> SeenText(mem, copies, addr, len).value.Text?
    ensures LiveText(mem, addr, len).Some? ==> LiveText(mem, addr, len).value.Text?
  {
    hide Seen;
  }

  lemma NothingSeen(mem: Memory, addr: nat, len: int)
    requires len > 0
    ensures WholeText(mem, [], addr, len) <==> LiveText(mem, addr, len).None?
  {
  }

  lemma SliceWhole(d: Decoder, t: GoType, img: Image, addr: nat, have: nat, mem: Memory, copies: seq<nat>, depth: nat)
    requires depth < 8 && t.Slice?
    ensures Glimpse(d, t, img, addr, have, mem, copies, depth) == View(d, t, img, mem, depth)
       <==> Whole(d, t, img, addr, have, mem, copies, depth)
  {
    hide Seen, SeenText, LiveText;
    if AllKnown(img, 0, 24) && Signed64(WordAt(img, 8)) > 0 {
      TextWhole(mem, copies, WordAt(img, 0), Signed64(WordAt(img, 8)));
    }
  }

  lemma {:induction false} PointerWhole(d: Decoder, ids: iset<TypeId>, id: TypeId, img: Image, addr: nat, have: nat, mem: Memory,
                                        copies: seq<nat>, depth: nat)
    requires depth < 8 && id in ids && InterfacesUnreachable(d, ids) && WellFormedEnv(d.env)
    ensures Glimpse(d, Ptr(id), img, addr, have, mem, copies, depth) == View(d, Ptr(id), img, mem, depth)
       <==> Whole(d, Ptr(id), img, addr, have, mem, copies, depth)
    decreases 8 - depth, Ptr(id), 0
  {
    hide Seen, Live, InterfaceFree, WellFormed;
    if AllKnown(img, 0, 8) {
      var p, size := WordAt(img, 0), Size(d.env(id));
      if p != 0 && 0 < size <= 4096 && Seen(copies, p, size) {
        GlimpseIsViewIff(d, ids, d.env(id), Live(mem, p, size), p, size, mem, copies, depth + 1);
      }
    }
  }

  lemma {:induction false} FieldsWhole(d: Decoder, ids: iset<TypeId>, fields: seq<Field>, img: Image, addr: nat, have: nat, mem: Memory,
                                       copies: seq<nat>, depth: nat)
    requires depth <= 8 && InterfacesUnreachable(d, ids) && WellFormedEnv(d.env)
    requires forall f <- fields :: InterfaceFree(f.typ, ids) && WellFormed(f.typ)
    ensures FieldGlimpses(d, fields, img, addr, have, mem, copies, depth) == FieldViews(d, fields, img, mem, depth)
       <==> forall f <- fields | Visible(d, f) :: WholeField(d, f, img, addr, have, mem, copies, depth)
    decreases 8 - depth, fields
  {
    hide Seen, Live, InterfaceFree, WellFormed, Glimpse, View, WholeField, Drop, FieldInHand;
    if fields != [] {
      var f := fields[0];
      assert fields == [f] + fields[1..];
      FieldsWhole(d, ids, fields[1..], img, addr, have, mem, copies, depth);
      if Visible(d, f) {
        FieldWhole(d, ids, f, img, addr, have, mem, copies, depth);
        SameHead(d, fields, img, addr, have, mem, copies, depth);
      }
    }
  }

  lemma SameHead(d: Decoder, fields: seq<Field>, img: Image, addr: nat, have: nat, mem: Memory, copies: seq<nat>, depth: nat)
    requires depth <= 8 && fields != [] && Visible(d, fields[0])
    ensures var f, got := fields[0], FieldInHand(fields[0], addr, have, copies);
            var shown := if got == 0 then Unavailable
                         else Glimpse(d, f.typ, Drop(img, f.offset), (addr + f.offset) % ADDRESSES, got, mem, copies, depth);
            FieldGlimpses(d, fields, img, addr, have, mem, copies, depth) == FieldViews(d, fields, img, mem, depth)
            <==> && shown == View(d, f.typ, Drop(img, f.offset), mem, depth)
                 && FieldGlimpses(d, fields[1..], img, addr, have, mem, copies, depth) == FieldViews(d, fields[1..], img, mem, depth)
  {
    hide Glimpse, View, FieldInHand, Drop;
    var a, b := FieldGlimpses(d, fields, img, addr, have, mem, copies, depth), FieldViews(d, fields, img, mem, depth);
    assert a[1..] == FieldGlimpses(d, fields[1..], img, addr, have, mem, copies, depth);
    assert b[1..] == FieldViews(d, fields[1..], img, mem, depth);
    assert a == [a[0]] + a[1..] && b == [b[0]] + b[1..];
  }

  lemma {:induction false} FieldWhole(d: Decoder, ids: iset<TypeId>, f: Field, img: Image, addr: nat, have: nat, mem: Memory,
                                      copies: seq<nat>, depth: nat)
    requires depth <= 8 && InterfacesUnreachable(d, ids) && WellFormedEnv(d.env)
    requires InterfaceFree(f.typ, ids) && WellFormed(f.typ)
    ensures var got := FieldInHand(f, addr, have, copies);
            var shown := if got == 0 then Unavailable
                         else Glimpse(d, f.typ, Drop(img, f.offset), (addr + f.offset) % ADDRESSES, got, mem, copies, depth);
            shown == View(d, f.typ, Drop(img, f.offset), mem, depth) <==> WholeField(d, f, img, addr, have, mem, copies, depth)
    decreases 8 - depth, f
  {
    hide Seen, Live, InterfaceFree, WellFormed, Glimpse, View, Drop, FieldInHand, Whole;
    var got := FieldInHand(f, addr, have, copies);
    GlimpseIsViewIff(d, ids, f.typ, Drop(img, f.offset), (addr + f.offset) % ADDRESSES, got, mem, copies, depth);
    if got == 0 { NothingInHand(d, ids, f.typ, Drop(img, f.offset), (addr + f.offset) % ADDRESSES, mem, copies, depth); }
  }

  /** With nothing in hand a value is unavailable, if it is no struct. */
  lemma {:induction false} NothingInHand(d: Decoder, ids: iset<TypeId>, t: GoType, img: Image, addr: nat, mem: Memory, copies: seq<nat>, depth: nat)
    requires depth <= 8 && InterfaceFree(t, ids) && WellFormed(t)
    ensures depth < 8 && !Underlying(t).Struct? ==> Glimpse(d, t, img, addr, 0, mem, copies, depth) == Unavailable
    ensures depth == 8 || Underlying(t).Struct? ==> View(d, t, img, mem, depth) != Unavailable
    decreases t
  {
    hide FieldViews, FieldGlimpses;
    if t.Named? { NothingInHand(d, ids, t.base, img, addr, mem, copies, depth); }
  }
}
