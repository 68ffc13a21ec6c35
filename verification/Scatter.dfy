/** `scatterWords`: from ABI words back to the memory image of a struct held in registers. */
module Scatter {
  import opened Words
  import opened GoTypes
  import opened FetchPlan
  import opened TargetMemory

  /** Bytes a scalar or pointer occupies in memory, as `scatterWords` reckons them. */
  function CellSize(t: GoType): nat
  {
    var n := Size(t);
    if n <= 0 || n > 8 then 8 else n
  }

  datatype Scattered = Scattered(img: Bytes, consumed: nat)

  predicate Inside(img: Bytes, base: int, n: nat)
  {
    0 <= base && base + n <= |img|
  }

  function Overwrite(img: Bytes, base: nat, b: Bytes): (r: Bytes)
    requires Inside(img, base, |b|)
    ensures |r| == |img|
    ensures r[base..base + |b|] == b
    ensures forall i | 0 <= i < |img| && !(base <= i < base + |b|) :: r[i] == img[i]
  {
    img[..base] + b + img[base + |b|..]
  }

  /** One copy of the walk: skipped when either side is too short. */
  function CopyWords(img: Bytes, base: int, words: Bytes, from: nat, n: nat): (r: Bytes)
    ensures |r| == |img|
  {
    if from + n <= |words| && Inside(img, base, n) then Overwrite(img, base, words[from..from + n]) else img
  }

  function Walk(t: GoType, base: int, words: Bytes, consumed: nat, img: Bytes): (r: Scattered)
    ensures |r.img| == |img|
    decreases t
  {
    match t
    case Named(b) => Walk(b, base, words, consumed, img)
    case Str => Scattered(CopyWords(img, base, words, consumed, 16), consumed + 16)
    case Slice(_, _) => Scattered(CopyWords(img, base, words, consumed, 24), consumed + 24)
    case Iface(_) => Scattered(CopyWords(img, base, words, consumed, 16), consumed + 16)
    case Struct(_, fields, _) => FieldWalk(fields, base, words, consumed, img)
    case _ => Scattered(CopyWords(img, base, words, consumed, CellSize(t)), consumed + 8)
  }

  function FieldWalk(fields: seq<Field>, base: int, words: Bytes, consumed: nat, img: Bytes): (r: Scattered)
    ensures |r.img| == |img|
    decreases fields
  {
    if fields == [] then Scattered(img, consumed)
    else
      var first := Walk(fields[0].typ, base + fields[0].offset, words, consumed, img);
      FieldWalk(fields[1..], base, words, first.consumed, first.img)
  }

  function ScatteredImage(t: GoType, words: Bytes): Bytes
  {
    if Size(t) <= 0 then words else Walk(t, 0, words, 0, Zeros(Size(t))).img
  }

  class ScatterBuffer {
    const img: array<Byte>
    var consume: nat

    constructor (size: nat)
      ensures fresh(img) && img[..] == Zeros(size) && consume == 0
    {
      img := new Byte[size](_ => 0);
      consume := 0;
      new;
      assert img[..] == Zeros(size);
    }

    method Copy(base: int, words: Bytes, n: nat)
      modifies img
      ensures img[..] == CopyWords(old(img[..]), base, words, consume, n)
    {
      if consume + n <= |words| && 0 <= base && base + n <= img.Length {
        ghost var before := img[..];
        forall i | 0 <= i < n {
          img[base + i] := words[consume + i];
        }
        assert img[..] == Overwrite(before, base, words[consume..consume + n]);
      }
    }

    method Visit(t: GoType, base: int, words: Bytes)
      modifies this`consume, img
      ensures var r := Walk(t, base, words, old(consume), old(img[..]));
              img[..] == r.img && consume == r.consumed
      decreases t
    {
      match t
      case Named(b) =>
        Visit(b, base, words);
      case Str =>
        Copy(base, words, 16);
        consume := consume + 16;
      case Slice(_, _) =>
        Copy(base, words, 24);
        consume := consume + 24;
      case Iface(_) =>
        Copy(base, words, 16);
        consume := consume + 16;
      case Struct(_, fields, _) =>
        for i := 0 to |fields|
          invariant FieldWalk(fields[i..], base, words, consume, img[..])
                 == FieldWalk(fields, base, words, old(consume), old(img[..]))
        {
          assert fields[i..][1..] == fields[i + 1..];
          Visit(fields[i].typ, base + fields[i].offset, words);
        }
        assert fields[|fields|..] == [];
      case _ =>
        Copy(base, words, CellSize(t));
        consume := consume + 8;
    }
  }

  method ScatterWords(t: GoType, words: Bytes) returns (r: Bytes)
    ensures r == ScatteredImage(t, words)
  {
    if Size(t) <= 0 {
      return words;
    }
    var image := new ScatterBuffer(Size(t));
    image.Visit(t, 0, words);
    r := image.img[..];
  }

  // ---- the inverse ----

  /** `words`, from `from` on, are a flattening of the value of type `t` at `base` of an image:
   *  the assignment of Go's register ABI, with unused upper bytes of a register arbitrary. */
  predicate Flattens(t: GoType, base: int, img: Bytes, words: Bytes, from: nat)
    decreases t
  {
    match t
    case Named(b) => Flattens(b, base, img, words, from)
    case Str => SameBytes(img, base, words, from, 16)
    case Slice(_, _) => SameBytes(img, base, words, from, 24)
    case Iface(_) => SameBytes(img, base, words, from, 16)
    case Struct(_, fields, _) => FieldsFlatten(fields, base, img, words, from)
    case _ => SameBytes(img, base, words, from, CellSize(t))
  }

  predicate FieldsFlatten(fields: seq<Field>, base: int, img: Bytes, words: Bytes, from: nat)
    decreases fields
  {
    if fields == [] then true
    else
      && Flattens(fields[0].typ, base + fields[0].offset, img, words, from)
      && FieldsFlatten(fields[1..], base, img, words, from + 8 * AbiWordCount(fields[0].typ))
  }

  predicate SameBytes(img: Bytes, base: int, words: Bytes, from: nat, n: nat)
  {
    && Inside(img, base, n)
    && from + n <= |words|
    && img[base..base + n] == words[from..from + n]
  }

  predicate AllSupported(fields: seq<Field>)
  {
    forall f <- fields :: AbiWordCount(f.typ) > 0
  }

  lemma {:induction false} SupportedFields(fields: seq<Field>)
    ensures FieldWordCount(fields) > 0 ==> AllSupported(fields)
    ensures AllSupported(fields) && fields != [] ==>
              FieldWordCount(fields) == AbiWordCount(fields[0].typ) + FieldWordCount(fields[1..]) > 0
  {
    if fields != [] {
      SupportedFields(fields[1..]);
      assert FieldWordCount([]) == 0;
      forall f | f in fields && FieldWordCount(fields) > 0
        ensures AbiWordCount(f.typ) > 0
      {
        assert f == fields[0] || f in fields[1..];
      }
    }
  }

  predicate InField(f: Field, base: int, i: int)
  {
    base + f.offset <= i < base + f.offset + Size(f.typ)
  }

  predicate InFields(fields: seq<Field>, base: int, i: int)
  {
    exists f <- fields :: InField(f, base, i)
  }

  /** Scattering a value writes inside that value only. */
  lemma {:induction false} WalkStaysInside(t: GoType, base: int, words: Bytes, consumed: nat, img: Bytes, i: nat)
    requires WellFormed(t) && AbiWordCount(t) > 0
    requires i < |img| && !(base <= i < base + Size(t))
    ensures Walk(t, base, words, consumed, img).img[i] == img[i]
    decreases t
  {
    match t
    case Named(b) => WalkStaysInside(b, base, words, consumed, img, i);
    case Struct(_, fields, size) =>
      SupportedFields(fields);
      forall f | f in fields
        ensures !InField(f, base, i)
      {
        assert FieldFits(f, size);
      }
      FieldWalkStaysInside(fields, base, words, consumed, img, i);
    case _ =>
  }

  lemma {:induction false} FieldWalkStaysInside(fields: seq<Field>, base: int, words: Bytes, consumed: nat, img: Bytes, i: nat)
    requires AllSupported(fields) && forall f <- fields :: WellFormed(f.typ)
    requires i < |img| && !InFields(fields, base, i)
    ensures FieldWalk(fields, base, words, consumed, img).img[i] == img[i]
    decreases fields
  {
    if fields != [] {
      assert fields[0] in fields;
      WalkStaysInside(fields[0].typ, base + fields[0].offset, words, consumed, img, i);
      var first := Walk(fields[0].typ, base + fields[0].offset, words, consumed, img);
      FieldWalkStaysInside(fields[1..], base, words, first.consumed, first.img, i);
    }
  }

  /** Whether words flatten a value depends on that value's bytes only. */
  lemma {:induction false} FlattensFrame(t: GoType, base: int, a: Bytes, b: Bytes, words: Bytes, from: nat)
    requires WellFormed(t) && AbiWordCount(t) > 0
    requires Flattens(t, base, a, words, from)
    requires |a| == |b| && forall i | 0 <= i < |a| && base <= i < base + Size(t) :: a[i] == b[i]
    ensures Flattens(t, base, b, words, from)
    decreases t
  {
    match t
    case Named(u) => FlattensFrame(u, base, a, b, words, from);
    case Struct(_, fields, size) =>
      SupportedFields(fields);
      FieldsFlattenFrame(fields, size, base, a, b, words, from);
    case Opaque(_) =>
    case _ => SameBytesFrame(base, a, b, words, from, Size(t));
  }

  lemma SameBytesFrame(base: int, a: Bytes, b: Bytes, words: Bytes, from: nat, n: nat)
    requires SameBytes(a, base, words, from, n)
    requires |a| == |b| && forall i | 0 <= i < |a| && base <= i < base + n :: a[i] == b[i]
    ensures SameBytes(b, base, words, from, n)
  {
    assert a[base..base + n] == b[base..base + n];
  }

  lemma {:induction false} FieldsFlattenFrame(fields: seq<Field>, size: int, base: int, a: Bytes, b: Bytes, words: Bytes, from: nat)
    requires AllSupported(fields) && forall f <- fields :: FieldFits(f, size) && WellFormed(f.typ)
    requires FieldsFlatten(fields, base, a, words, from)
    requires |a| == |b| && forall i | 0 <= i < |a| && base <= i < base + size :: a[i] == b[i]
    ensures FieldsFlatten(fields, base, b, words, from)
    decreases fields
  {
    if fields != [] {
      assert fields[0] in fields && FieldFits(fields[0], size);
      FlattensFrame(fields[0].typ, base + fields[0].offset, a, b, words, from);
      FieldsFlattenFrame(fields[1..], size, base, a, b, words, from + 8 * AbiWordCount(fields[0].typ));
    }
  }

  /** Scattering undoes flattening: the words are a flattening of the image scattered from them,
   *  and exactly `abiWordCount` of them have been used. */
  lemma {:induction false} ScatterUndoesFlattening(t: GoType, base: nat, words: Bytes, from: nat, img: Bytes)
    requires WellFormed(t) && AbiWordCount(t) > 0
    requires base + Size(t) <= |img| && from + 8 * AbiWordCount(t) <= |words|
    ensures var r := Walk(t, base, words, from, img);
            Flattens(t, base, r.img, words, from) && r.consumed == from + 8 * AbiWordCount(t)
    decreases t
  {
    match t
    case Named(b) => ScatterUndoesFlattening(b, base, words, from, img);
    case Struct(_, fields, size) =>
      SupportedFields(fields);
      ScatterUndoesFieldFlattening(fields, size, base, words, from, img);
    case _ =>
  }

  lemma {:induction false} ScatterUndoesFieldFlattening(fields: seq<Field>, size: int, base: nat, words: Bytes, from: nat, img: Bytes)
    requires AllSupported(fields) && forall f <- fields :: FieldFits(f, size) && WellFormed(f.typ)
    requires forall i, j | 0 <= i < j < |fields| :: FieldsApart(fields[i], fields[j])
    requires base + size <= |img| && from + 8 * FieldWordCount(fields) <= |words|
    ensures var r := FieldWalk(fields, base, words, from, img);
            FieldsFlatten(fields, base, r.img, words, from) && r.consumed == from + 8 * FieldWordCount(fields)
    decreases fields
  {
    hide Walk, Flattens, WellFormed;
    if fields != [] {
      SupportedFields(fields);
      var f, rest := fields[0], fields[1..];
      assert f in fields && FieldFits(f, size);
      var first := Walk(f.typ, base + f.offset, words, from, img);
      ScatterUndoesFlattening(f.typ, base + f.offset, words, from, img);
      ScatterUndoesFieldFlattening(rest, size, base, words, first.consumed, first.img);
      var last := FieldWalk(rest, base, words, first.consumed, first.img);
      forall i | 0 <= i < |img| && InField(f, base, i)
        ensures first.img[i] == last.img[i]
      {
        forall g | g in rest
          ensures !InField(g, base, i)
        {
          var k :| 0 <= k < |rest| && rest[k] == g;
          assert FieldsApart(fields[0], fields[k + 1]);
        }
        FieldWalkStaysInside(rest, base, words, first.consumed, first.img, i);
      }
      FlattensFrame(f.typ, base + f.offset, first.img, last.img, words, from);
    }
  }
}
