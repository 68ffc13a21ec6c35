/** The decoder's memory snapshot: captured leaves bound to addresses by walking the type again. */
module Snapshot {
  import opened Wrappers
  import opened Words
  import opened GoTypes
  import opened FetchPlan
  import opened KernelFetch

  type LeafData = ArgData

  datatype Chunk = Chunk(addr: nat, data: Bytes)

  /** `memSnapshot.put`: nothing is bound at nil, nor from a leaf without content. */
  function Put(addr: nat, leaf: LeafData): seq<Chunk>
  {
    if addr == 0 || leaf.readError || leaf.isNil || |leaf.data| == 0 then []
    else [Chunk(addr, leaf.data)]
  }

  predicate Covers(c: Chunk, addr: nat)
  {
    c.addr <= addr < (c.addr + |c.data|) % ADDRESSES
  }

  /** `memSnapshot.read`: the first chunk that covers the address decides. */
  function Read(chunks: seq<Chunk>, addr: nat, n: nat): (r: Option<Bytes>)
    ensures r.Some? ==> |r.value| == n
  {
    if chunks == [] then None
    else if Covers(chunks[0], addr) then ReadChunk(chunks[0], addr, n)
    else Read(chunks[1..], addr, n)
  }

  function ReadChunk(c: Chunk, addr: nat, n: nat): (r: Option<Bytes>)
    requires Covers(c, addr)
    ensures r.Some? ==> |r.value| == n
  {
    assert (c.addr + |c.data|) % ADDRESSES <= c.addr + |c.data|;
    var start := addr - c.addr;
    if start + n <= |c.data| then Some(c.data[start..start + n]) else None
  }

  function Puts(addrs: seq<nat>, leaves: seq<LeafData>): seq<Chunk>
    requires |addrs| <= |leaves|
  {
    if addrs == [] then [] else Put(addrs[0], leaves[0]) + Puts(addrs[1..], leaves[1..])
  }

  /** The part of a value's bytes that starts at a field. */
  function FieldMem(mem: Bytes, offset: int): Bytes
  {
    if 0 <= offset < |mem| then mem[offset..] else []
  }

  datatype Consumed = Consumed(chunks: seq<Chunk>, rest: seq<LeafData>)

  /** `consumeMemCaptures`: bind the leaves of a value whose bytes are `mem`. */
  function ConsumeMem(t: GoType, mem: Bytes, captures: seq<LeafData>): Consumed
    decreases t
  {
    match t
    case Named(b) => ConsumeMem(b, mem, captures)
    case Str => ConsumeFirst(mem, captures)
    case Slice(_, _) => ConsumeFirst(mem, captures)
    case Iface(nonEmpty) =>
      if |captures| < (if nonEmpty then 3 else 2) then Consumed([], captures)
      else
        var typeChunk := if nonEmpty && |mem| >= 8 then Put((ReadUint(mem) + 8) % ADDRESSES, captures[0]) else [];
        var captures' := if nonEmpty then captures[1..] else captures;
        var dataPtr := if |mem| >= 16 then ReadUint(mem[8..]) else 0;
        Consumed(typeChunk + Put(dataPtr, captures'[1]), captures'[2..])
    case Struct(_, fields, _) => FieldConsumeMem(fields, mem, captures)
    case _ => Consumed([], captures)
  }

  /** A string's or slice's bytes: bound at the pointer in its first word. */
  function ConsumeFirst(mem: Bytes, captures: seq<LeafData>): Consumed
  {
    if |captures| == 0 then Consumed([], captures)
    else Consumed(if |mem| >= 8 then Put(ReadUint(mem), captures[0]) else [], captures[1..])
  }

  function FieldConsumeMem(fields: seq<Field>, mem: Bytes, captures: seq<LeafData>): Consumed
    decreases fields
  {
    if fields == [] then Consumed([], captures)
    else
      var first := ConsumeMem(fields[0].typ, FieldMem(mem, fields[0].offset), captures);
      var rest := FieldConsumeMem(fields[1..], mem, first.rest);
      Consumed(first.chunks + rest.chunks, rest.rest)
  }

  /** `consumeRegCaptures`: the same for a value that travelled in registers. */
  function ConsumeReg(t: GoType, img: Bytes, captures: seq<LeafData>): Consumed
    decreases t
  {
    match t
    case Named(b) => ConsumeReg(b, img, captures)
    case Str => ConsumeFirst(img, captures)
    case Slice(_, _) => ConsumeFirst(img, captures)
    case Iface(_) =>
      Consumed(BindIface(img, captures), if |captures| >= 1 then captures[1..] else [])
    case Struct(_, fields, _) => FieldConsumeReg(fields, img, captures)
    case _ => Consumed([], captures)
  }

  /** `bindIfaceCaptures`. */
  function BindIface(header: Bytes, captures: seq<LeafData>): seq<Chunk>
  {
    if |header| < 16 || |captures| == 0 then [] else Put(ReadUint(header[8..]), captures[0])
  }

  function FieldConsumeReg(fields: seq<Field>, img: Bytes, captures: seq<LeafData>): Consumed
    decreases fields
  {
    if fields == [] then Consumed([], captures)
    else
      var first := ConsumeReg(fields[0].typ, FieldMem(img, fields[0].offset), captures);
      var rest := FieldConsumeReg(fields[1..], img, first.rest);
      Consumed(first.chunks + rest.chunks, rest.rest)
  }

  lemma FieldConsumeMemStep(fields: seq<Field>, i: nat, mem: Bytes, captures: seq<LeafData>)
    requires i < |fields|
    ensures var first := ConsumeMem(fields[i].typ, FieldMem(mem, fields[i].offset), captures);
            var next := FieldConsumeMem(fields[i + 1..], mem, first.rest);
            FieldConsumeMem(fields[i..], mem, captures) == Consumed(first.chunks + next.chunks, next.rest)
  {
    assert fields[i..][1..] == fields[i + 1..];
  }

  lemma FieldConsumeRegStep(fields: seq<Field>, i: nat, img: Bytes, captures: seq<LeafData>)
    requires i < |fields|
    ensures var first := ConsumeReg(fields[i].typ, FieldMem(img, fields[i].offset), captures);
            var next := FieldConsumeReg(fields[i + 1..], img, first.rest);
            FieldConsumeReg(fields[i..], img, captures) == Consumed(first.chunks + next.chunks, next.rest)
  {
    assert fields[i..][1..] == fields[i + 1..];
  }

  class MemSnapshot {
    var chunks: seq<Chunk>

    constructor ()
      ensures chunks == []
    {
      chunks := [];
    }

    method PutLeaf(addr: nat, leaf: LeafData)
      modifies this
      ensures chunks == old(chunks) + Put(addr, leaf)
    {
      if addr == 0 || leaf.readError || leaf.isNil || |leaf.data| == 0 {
        return;
      }
      chunks := chunks + [Chunk(addr, leaf.data)];
    }

    method ReadAt(addr: nat, n: nat) returns (r: Option<Bytes>)
      ensures r == Read(chunks, addr, n)
    {
      for i := 0 to |chunks|
        invariant Read(chunks, addr, n) == Read(chunks[i..], addr, n)
      {
        assert chunks[i..][1..] == chunks[i + 1..];
        if Covers(chunks[i], addr) {
          return ReadChunk(chunks[i], addr, n);
        }
      }
      return None;
    }

    method ConsumeMemCaptures(t: GoType, mem: Bytes, captures: seq<LeafData>) returns (rest: seq<LeafData>)
      modifies this
      ensures chunks == old(chunks) + ConsumeMem(t, mem, captures).chunks
      ensures rest == ConsumeMem(t, mem, captures).rest
      decreases t
    {
      match t
      case Named(b) =>
        rest := ConsumeMemCaptures(b, mem, captures);
      case Str =>
        rest := BindFirst(mem, captures);
      case Slice(_, _) =>
        rest := BindFirst(mem, captures);
      case Iface(nonEmpty) =>
        var need := if nonEmpty then 3 else 2;
        if |captures| < need {
          return captures;
        }
        rest := captures;
        if nonEmpty {
          if |mem| >= 8 {
            PutLeaf((ReadUint(mem) + 8) % ADDRESSES, rest[0]);
          }
          rest := rest[1..];
        }
        var dataPtr := if |mem| >= 16 then ReadUint(mem[8..]) else 0;
        rest := rest[1..];
        PutLeaf(dataPtr, rest[0]);
        rest := rest[1..];
      case Struct(_, fields, _) =>
        rest := ConsumeMemFields(fields, mem, captures);
      case _ =>
        rest := captures;
    }

    method ConsumeMemFields(fields: seq<Field>, mem: Bytes, captures: seq<LeafData>) returns (rest: seq<LeafData>)
      modifies this
      ensures chunks == old(chunks) + FieldConsumeMem(fields, mem, captures).chunks
      ensures rest == FieldConsumeMem(fields, mem, captures).rest
      decreases fields
    {
      hide ConsumeMem;
      rest := captures;
      ghost var goal := FieldConsumeMem(fields, mem, captures);
      ghost var todo, done := goal, [];
      for i := 0 to |fields|
        invariant todo == FieldConsumeMem(fields[i..], mem, rest)
        invariant chunks == old(chunks) + done
        invariant goal == Consumed(done + todo.chunks, todo.rest)
      {
        FieldConsumeMemStep(fields, i, mem, rest);
        ghost var first := ConsumeMem(fields[i].typ, FieldMem(mem, fields[i].offset), rest);
        ghost var next := FieldConsumeMem(fields[i + 1..], mem, first.rest);
        assert done + todo.chunks == (done + first.chunks) + next.chunks;
        rest := ConsumeMemCaptures(fields[i].typ, FieldMem(mem, fields[i].offset), rest);
        todo, done := next, done + first.chunks;
      }
      assert todo == Consumed([], rest);
    }

    method BindFirst(mem: Bytes, captures: seq<LeafData>) returns (rest: seq<LeafData>)
      modifies this
      ensures chunks == old(chunks) + ConsumeFirst(mem, captures).chunks
      ensures rest == ConsumeFirst(mem, captures).rest
    {
      if |captures| == 0 {
        return captures;
      }
      if |mem| >= 8 {
        PutLeaf(ReadUint(mem), captures[0]);
      }
      return captures[1..];
    }

    method ConsumeRegCaptures(t: GoType, img: Bytes, captures: seq<LeafData>) returns (rest: seq<LeafData>)
      modifies this
      ensures chunks == old(chunks) + ConsumeReg(t, img, captures).chunks
      ensures rest == ConsumeReg(t, img, captures).rest
      decreases t
    {
      match t
      case Named(b) =>
        rest := ConsumeRegCaptures(b, img, captures);
      case Str =>
        rest := BindFirst(img, captures);
      case Slice(_, _) =>
        rest := BindFirst(img, captures);
      case Iface(_) =>
        BindIfaceCaptures(img, captures);
        rest := if |captures| >= 1 then captures[1..] else [];
      case Struct(_, fields, _) =>
        rest := ConsumeRegFields(fields, img, captures);
      case _ =>
        rest := captures;
    }

    method ConsumeRegFields(fields: seq<Field>, img: Bytes, captures: seq<LeafData>) returns (rest: seq<LeafData>)
      modifies this
      ensures chunks == old(chunks) + FieldConsumeReg(fields, img, captures).chunks
      ensures rest == FieldConsumeReg(fields, img, captures).rest
      decreases fields
    {
      hide ConsumeReg;
      rest := captures;
      ghost var goal := FieldConsumeReg(fields, img, captures);
      ghost var todo, done := goal, [];
      for i := 0 to |fields|
        invariant todo == FieldConsumeReg(fields[i..], img, rest)
        invariant chunks == old(chunks) + done
        invariant goal == Consumed(done + todo.chunks, todo.rest)
      {
        FieldConsumeRegStep(fields, i, img, rest);
        ghost var first := ConsumeReg(fields[i].typ, FieldMem(img, fields[i].offset), rest);
        ghost var next := FieldConsumeReg(fields[i + 1..], img, first.rest);
        assert done + todo.chunks == (done + first.chunks) + next.chunks;
        rest := ConsumeRegCaptures(fields[i].typ, FieldMem(img, fields[i].offset), rest);
        todo, done := next, done + first.chunks;
      }
      assert todo == Consumed([], rest);
    }

    method BindIfaceCaptures(header: Bytes, captures: seq<LeafData>)
      modifies this
      ensures chunks == old(chunks) + BindIface(header, captures)
    {
      if |header| < 16 || |captures| == 0 {
        return;
      }
      PutLeaf(ReadUint(header[8..]), captures[0]);
    }
  }

  // ---- which address each leaf is bound to ----

  function FirstWord(mem: Bytes): nat
  {
    if |mem| >= 8 then ReadUint(mem) else 0
  }

  function SecondWord(mem: Bytes): nat
  {
    if |mem| >= 16 then ReadUint(mem[8..]) else 0
  }

  /** Address of every memory leaf of a value with bytes `mem`; 0 where none is bound. */
  function MemAddrs(t: GoType, mem: Bytes): (addrs: seq<nat>)
    ensures |addrs| == ExtraCaptures(t, true)
    decreases t
  {
    match t
    case Named(b) => MemAddrs(b, mem)
    case Str => [FirstWord(mem)]
    case Slice(_, _) => [FirstWord(mem)]
    case Iface(nonEmpty) =>
      (if nonEmpty then [if |mem| >= 8 then (ReadUint(mem) + 8) % ADDRESSES else 0] else [])
      + [0, SecondWord(mem)]
    case Struct(_, fields, _) => FieldMemAddrs(fields, mem)
    case _ => []
  }

  function FieldMemAddrs(fields: seq<Field>, mem: Bytes): (addrs: seq<nat>)
    ensures |addrs| == FieldExtraCaptures(fields, true)
    decreases fields
  {
    if fields == [] then []
    else MemAddrs(fields[0].typ, FieldMem(mem, fields[0].offset)) + FieldMemAddrs(fields[1..], mem)
  }

  function RegAddrs(t: GoType, img: Bytes): (addrs: seq<nat>)
    ensures |addrs| == ExtraCaptures(t, false)
    decreases t
  {
    match t
    case Named(b) => RegAddrs(b, img)
    case Str => [FirstWord(img)]
    case Slice(_, _) => [FirstWord(img)]
    case Iface(_) => [SecondWord(img)]
    case Struct(_, fields, _) => FieldRegAddrs(fields, img)
    case _ => []
  }

  function FieldRegAddrs(fields: seq<Field>, img: Bytes): (addrs: seq<nat>)
    ensures |addrs| == FieldExtraCaptures(fields, false)
    decreases fields
  {
    if fields == [] then []
    else RegAddrs(fields[0].typ, FieldMem(img, fields[0].offset)) + FieldRegAddrs(fields[1..], img)
  }

  lemma {:induction false} PutsAppend(a: seq<nat>, b: seq<nat>, leaves: seq<LeafData>)
    requires |a| + |b| <= |leaves|
    ensures Puts(a + b, leaves) == Puts(a, leaves) + Puts(b, leaves[|a|..])
  {
    if a == [] {
      assert a + b == b;
    } else {
      assert (a + b)[1..] == a[1..] + b;
      assert leaves[1..][|a| - 1..] == leaves[|a|..];
      PutsAppend(a[1..], b, leaves[1..]);
    }
  }

  /** The decoder takes exactly the leaves the planner counted, each at its own address. */
  lemma {:induction false} ConsumeMemBinds(t: GoType, mem: Bytes, captures: seq<LeafData>)
    requires ExtraCaptures(t, true) <= |captures|
    ensures ConsumeMem(t, mem, captures)
         == Consumed(Puts(MemAddrs(t, mem), captures), captures[ExtraCaptures(t, true)..])
    decreases t
  {
    match t
    case Named(b) => ConsumeMemBinds(b, mem, captures);
    case Iface(nonEmpty) =>
      var addrs := MemAddrs(t, mem);
      var tail := [0, SecondWord(mem)];
      var captures' := if nonEmpty then captures[1..] else captures;
      assert tail[1..] == [SecondWord(mem)] && tail[1..][1..] == [];
      assert Puts(tail, captures') == Put(SecondWord(mem), captures'[1]) by {
        assert Puts(tail[1..], captures'[1..]) == Put(SecondWord(mem), captures'[1]) + Puts([], captures'[1..][1..]);
      }
      if nonEmpty {
        assert addrs[1..] == tail;
      } else {
        assert addrs == tail;
      }
    case Struct(_, fields, _) => FieldConsumeMemBinds(fields, mem, captures);
    case _ =>
  }

  lemma {:induction false} FieldConsumeMemBinds(fields: seq<Field>, mem: Bytes, captures: seq<LeafData>)
    requires FieldExtraCaptures(fields, true) <= |captures|
    ensures FieldConsumeMem(fields, mem, captures)
         == Consumed(Puts(FieldMemAddrs(fields, mem), captures), captures[FieldExtraCaptures(fields, true)..])
    decreases fields
  {
    if fields != [] {
      var n := ExtraCaptures(fields[0].typ, true);
      var fieldMem := FieldMem(mem, fields[0].offset);
      ConsumeMemBinds(fields[0].typ, fieldMem, captures);
      FieldConsumeMemBinds(fields[1..], mem, captures[n..]);
      PutsAppend(MemAddrs(fields[0].typ, fieldMem), FieldMemAddrs(fields[1..], mem), captures);
    }
  }

  lemma {:induction false} ConsumeRegBinds(t: GoType, img: Bytes, captures: seq<LeafData>)
    requires ExtraCaptures(t, false) <= |captures|
    ensures ConsumeReg(t, img, captures)
         == Consumed(Puts(RegAddrs(t, img), captures), captures[ExtraCaptures(t, false)..])
    decreases t
  {
    match t
    case Named(b) => ConsumeRegBinds(b, img, captures);
    case Struct(_, fields, _) => FieldConsumeRegBinds(fields, img, captures);
    case _ =>
  }

  lemma {:induction false} FieldConsumeRegBinds(fields: seq<Field>, img: Bytes, captures: seq<LeafData>)
    requires FieldExtraCaptures(fields, false) <= |captures|
    ensures FieldConsumeReg(fields, img, captures)
         == Consumed(Puts(FieldRegAddrs(fields, img), captures), captures[FieldExtraCaptures(fields, false)..])
    decreases fields
  {
    if fields != [] {
      var n := ExtraCaptures(fields[0].typ, false);
      var fieldImg := FieldMem(img, fields[0].offset);
      ConsumeRegBinds(fields[0].typ, fieldImg, captures);
      FieldConsumeRegBinds(fields[1..], img, captures[n..]);
      PutsAppend(RegAddrs(fields[0].typ, fieldImg), FieldRegAddrs(fields[1..], img), captures);
    }
  }
}
