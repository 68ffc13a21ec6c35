/** The part of DWARF's type tree that auto-fetch walks.
 *
 *  The repository recognises strings, slices and interfaces by the name or the fields of a
 *  struct type; here they are constructors of their own, so no type is two of them at once.
 *  A pointer names its target in a type environment, because Go types can be cyclic.
 */
module GoTypes {

  type TypeId = nat

  type TypeEnv = TypeId -> GoType

  datatype ScalarKind = BoolKind | IntKind | UintKind | FloatKind

  datatype GoType =
    | Scalar(kind: ScalarKind, bytes: nat)
    | Ptr(target: TypeId)
    | Str
    | Slice(name: string, byteElements: bool)
    | Iface(nonEmpty: bool)
    | Struct(name: string, fields: seq<Field>, size: int)
    | Named(base: GoType)  // a typedef or qualifier, which `underlying` strips
    | Opaque(size: int)    // arrays, functions, complex numbers: nothing `scalarValue` accepts

  datatype Field = Field(name: string, exported: bool, offset: int, typ: GoType)

  /** `dwarf.Type.Size`. */
  function Size(t: GoType): int
  {
    match t
    case Scalar(_, n) => n
    case Ptr(_) => 8
    case Str => 16
    case Slice(_, _) => 24
    case Iface(_) => 16
    case Struct(_, _, n) => n
    case Named(b) => Size(b)
    case Opaque(n) => n
  }

  function Underlying(t: GoType): (u: GoType)
    ensures !u.Named?
  {
    if t.Named? then Underlying(t.base) else t
  }

  /** Represented by a DWARF struct, other than the runtime's map and channel headers. */
  predicate IsCapturedStruct(t: GoType)
  {
    match Underlying(t)
    case Str => true
    case Slice(_, _) => true
    case Iface(_) => true
    case Struct(name, _, _) => !IsRuntimeStruct(name)
    case _ => false
  }

  predicate IsRuntimeStruct(name: string)
  {
    name == "runtime.hmap" || name == "runtime.hchan"
  }

  /** `typeIsDirect`: the repository's approximation of Go's direct-interface flag. */
  predicate IsDirect(t: GoType)
  {
    match Underlying(t)
    case Ptr(_) => true
    case Str => false
    case Slice(_, _) => false
    case Iface(_) => false
    case Struct(name, fields, size) =>
      if IsRuntimeStruct(name) then true
      else if size > 8 then false
      else if size == 8 && |fields| > 0 && Underlying(fields[0].typ).Ptr? then true
      else 0 < size && |fields| == 0
    case u => 0 < Size(u) <= 8
  }

  /** Some pointer is stored in a value of this type. */
  predicate HasPtr(t: GoType)
  {
    match t
    case Ptr(_) => true
    case Named(b) => HasPtr(b)
    case Struct(_, fields, _) => exists f <- fields :: HasPtr(f.typ)
    case _ => false
  }

  /** What Go's compiler guarantees of a type's layout: fields lie inside the struct, do
   *  not overlap, and pointers are 8-aligned. */
  predicate WellFormed(t: GoType)
  {
    match t
    case Scalar(_, n) => 1 <= n <= 8
    case Named(b) => WellFormed(b)
    case Struct(_, fields, size) =>
      && 0 <= size
      && (forall f <- fields :: FieldFits(f, size) && WellFormed(f.typ))
      && forall i, j | 0 <= i < j < |fields| :: FieldsApart(fields[i], fields[j])
    case Opaque(n) => 0 <= n
    case _ => true
  }

  predicate FieldFits(f: Field, size: int)
  {
    && 0 <= f.offset
    && f.offset + Size(f.typ) <= size
    && (HasPtr(f.typ) ==> f.offset % 8 == 0)
  }

  predicate FieldsApart(f: Field, g: Field)
  {
    f.offset + Size(f.typ) <= g.offset || g.offset + Size(g.typ) <= f.offset
  }

  ghost predicate WellFormedEnv(env: TypeEnv)
  {
    forall id :: WellFormed(env(id))
  }

  /** The type as registers hold it when a probe has fetched them: a non-empty interface's itab has
   *  been replaced by the type word behind it, so the value reads like an empty interface. */
  function AsHeld(t: GoType): GoType
  {
    match t
    case Named(b) => Named(AsHeld(b))
    case Iface(_) => Iface(false)
    case Struct(name, fields, size) => Struct(name, FieldsAsHeld(fields), size)
    case _ => t
  }

  function FieldsAsHeld(fields: seq<Field>): (held: seq<Field>)
    ensures |held| == |fields|
    ensures forall i | 0 <= i < |fields| :: held[i] == fields[i].(typ := AsHeld(fields[i].typ))
  {
    if fields == [] then [] else [fields[0].(typ := AsHeld(fields[0].typ))] + FieldsAsHeld(fields[1..])
  }

  /** Only what the interfaces' first words mean changes, nothing of the layout. */
  lemma {:induction false} HeldLayout(t: GoType)
    ensures Size(AsHeld(t)) == Size(t) && Underlying(AsHeld(t)) == AsHeld(Underlying(t))
    ensures HasPtr(AsHeld(t)) == HasPtr(t)
    decreases t
  {
    match t
    case Named(b) => HeldLayout(b);
    case Struct(_, fields, _) =>
      var held := FieldsAsHeld(fields);
      forall i | 0 <= i < |fields|
        ensures HasPtr(held[i].typ) == HasPtr(fields[i].typ) && held[i] in held && fields[i] in fields
      {
        HeldLayout(fields[i].typ);
      }
      SamePointers(fields, held);
    case _ =>
  }

  lemma SamePointers(fields: seq<Field>, held: seq<Field>)
    requires |held| == |fields| && forall i | 0 <= i < |fields| :: HasPtr(held[i].typ) == HasPtr(fields[i].typ)
    ensures (exists f <- held :: HasPtr(f.typ)) == exists f <- fields :: HasPtr(f.typ)
  {
    hide HasPtr;
    if f :| f in held && HasPtr(f.typ) {
      var i :| 0 <= i < |held| && held[i] == f;
      assert fields[i] in fields && HasPtr(fields[i].typ);
    }
    if f :| f in fields && HasPtr(f.typ) {
      var i :| 0 <= i < |fields| && fields[i] == f;
      assert held[i] in held && HasPtr(held[i].typ);
    }
  }

  lemma {:induction false} HeldWellFormed(t: GoType)
    requires WellFormed(t)
    ensures WellFormed(AsHeld(t))
    decreases t
  {
    hide FieldFits, FieldsApart, FieldsAsHeld, Size, HasPtr;
    match t
    case Named(b) => HeldWellFormed(b);
    case Struct(name, fields, size) =>
      HeldFieldsWellFormed(fields, size);
      HeldFieldsApart(fields);
      assert AsHeld(t) == Struct(name, FieldsAsHeld(fields), size) && 0 <= size;
      assert |FieldsAsHeld(fields)| == |fields|;
    case _ =>
  }

  lemma {:induction false} HeldFieldsWellFormed(fields: seq<Field>, size: int)
    requires forall f <- fields :: FieldFits(f, size) && WellFormed(f.typ)
    ensures forall f <- FieldsAsHeld(fields) :: FieldFits(f, size) && WellFormed(f.typ)
    decreases fields
  {
    hide AsHeld, WellFormed, FieldFits;
    if fields != [] {
      assert fields[0] in fields;
      HeldFieldFits(fields[0], size);
      HeldWellFormed(fields[0].typ);
      HeldFieldsWellFormed(fields[1..], size);
    }
  }

  lemma HeldFieldFits(f: Field, size: int)
    requires FieldFits(f, size)
    ensures FieldFits(f.(typ := AsHeld(f.typ)), size)
  {
    HeldLayout(f.typ);
  }

  lemma HeldFieldsApart(fields: seq<Field>)
    requires forall i, j | 0 <= i < j < |fields| :: FieldsApart(fields[i], fields[j])
    ensures var held := FieldsAsHeld(fields);
            forall i, j | 0 <= i < j < |fields| :: FieldsApart(held[i], held[j])
  {
    hide Size, AsHeld;
    forall i | 0 <= i < |fields|
      ensures Size(FieldsAsHeld(fields)[i].typ) == Size(fields[i].typ)
    {
      HeldLayout(fields[i].typ);
    }
  }

  lemma WellFormedSize(t: GoType)
    requires WellFormed(t)
    ensures Size(t) >= 0
  {
  }
}
