/** Walking debug entries: `dieChildren` against the tree it reads from a prefix-order stream. */
module DieWalker {
  import opened Wrappers

  /** One entry of the stream. A null entry, tag 0, ends a chain of siblings. */
  datatype Entry = Entry(tag: nat, children: bool, id: nat)

  const NULL_ENTRY := Entry(0, false, 0)

  /** The reader: None stands for the end of the data or a decoding error. */
  function Next(stream: seq<Entry>, pos: nat): Option<Entry>
  {
    if pos < |stream| then Some(stream[pos]) else None
  }

  // ---- the walk ----

  /** What the loop still collects from a position, `depth` levels below the children's. */
  function Collected(stream: seq<Entry>, pos: nat, depth: nat): seq<Entry>
    decreases |stream| - pos
  {
    if pos >= |stream| then []
    else
      var c := stream[pos];
      if c.tag == 0 then (if depth == 0 then [] else Collected(stream, pos + 1, depth - 1))
      else
        (if depth == 0 then [c] else [])
        + Collected(stream, pos + 1, if c.children then depth + 1 else depth)
  }

  /** `dieChildren` for the entry at `offset`. */
  method DieChildren(stream: seq<Entry>, offset: nat) returns (out: seq<Entry>)
    ensures out == if offset < |stream| && stream[offset].children then Collected(stream, offset + 1, 0) else []
  {
    out := [];
    if offset >= |stream| || !stream[offset].children {
      return;
    }
    var pos := offset + 1;
    var depth: nat := 0;
    while true
      invariant out + Collected(stream, pos, depth) == Collected(stream, offset + 1, 0)
      decreases if pos < |stream| then |stream| - pos else 0
    {
      var c := Next(stream, pos);
      if c.None? {
        break;
      }
      pos := pos + 1;
      if c.value.tag == 0 {
        if depth == 0 {
          break;
        }
        depth := depth - 1;
        continue;
      }
      if depth == 0 {
        out := out + [c.value];
      }
      if c.value.children {
        depth := depth + 1;
      }
    }
  }

  // ---- the tree ----

  /** An entry with its children; `flagged` is the children flag, which may be set on an entry
   *  that turns out to have none. */
  datatype Die = Die(tag: nat, id: nat, flagged: bool, kids: seq<Die>)

  function Head(d: Die): Entry
  {
    Entry(d.tag, d.flagged, d.id)
  }

  ghost predicate WellFormed(d: Die)
  {
    d.tag != 0 && (d.kids != [] ==> d.flagged) && forall k <- d.kids :: WellFormed(k)
  }

  /** Prefix order, each chain of siblings closed by a null entry. */
  function Flatten(d: Die): seq<Entry>
    decreases d
  {
    [Head(d)] + (if d.flagged then FlattenAll(d.kids) + [NULL_ENTRY] else [])
  }

  function FlattenAll(ds: seq<Die>): seq<Entry>
    decreases ds
  {
    if ds == [] then [] else Flatten(ds[0]) + FlattenAll(ds[1..])
  }

  function Heads(ds: seq<Die>): seq<Entry>
  {
    if ds == [] then [] else [Head(ds[0])] + Heads(ds[1..])
  }

  /** Only the rest of the stream matters to the walk. */
  lemma {:induction false} CollectedShift(a: seq<Entry>, b: seq<Entry>, pos: nat, depth: nat)
    requires pos <= |b|
    ensures Collected(a + b, |a| + pos, depth) == Collected(b, pos, depth)
    decreases |b| - pos
  {
    if pos < |b| {
      var s, c := a + b, b[pos];
      assert s[|a| + pos] == c && |a| + (pos + 1) == |a| + pos + 1;
      if c.tag == 0 {
        if depth > 0 { CollectedShift(a, b, pos + 1, depth - 1); }
      } else {
        CollectedShift(a, b, pos + 1, if c.children then depth + 1 else depth);
      }
    }
  }

  lemma CollectedCons(c: Entry, rest: seq<Entry>, depth: nat)
    ensures Collected([c] + rest, 0, depth)
         == if c.tag == 0 then (if depth == 0 then [] else Collected(rest, 0, depth - 1))
            else (if depth == 0 then [c] else []) + Collected(rest, 0, if c.children then depth + 1 else depth)
  {
    if c.tag == 0 {
      if depth > 0 { CollectedShift([c], rest, 0, depth - 1); }
    } else {
      CollectedShift([c], rest, 0, if c.children then depth + 1 else depth);
    }
  }

  /** A subtree contributes its root at the children's level and nothing below. */
  lemma {:induction false} SubtreeCollected(d: Die, rest: seq<Entry>, depth: nat)
    requires WellFormed(d)
    ensures Collected(Flatten(d) + rest, 0, depth)
         == (if depth == 0 then [Head(d)] else []) + Collected(rest, 0, depth)
    decreases d, 0
  {
    if d.flagged {
      var tail := [NULL_ENTRY] + rest;
      assert Flatten(d) + rest == [Head(d)] + (FlattenAll(d.kids) + tail);
      CollectedCons(Head(d), FlattenAll(d.kids) + tail, depth);
      ForestCollected(d.kids, tail, depth + 1);
      CollectedCons(NULL_ENTRY, rest, depth + 1);
    } else {
      assert Flatten(d) + rest == [Head(d)] + rest;
      CollectedCons(Head(d), rest, depth);
    }
  }

  lemma {:induction false} ForestCollected(ds: seq<Die>, rest: seq<Entry>, depth: nat)
    requires forall i | 0 <= i < |ds| :: WellFormed(ds[i])
    ensures Collected(FlattenAll(ds) + rest, 0, depth)
         == (if depth == 0 then Heads(ds) else []) + Collected(rest, 0, depth)
    decreases ds
  {
    if ds == [] {
      assert FlattenAll(ds) + rest == rest;
    } else {
      assert FlattenAll(ds) + rest == Flatten(ds[0]) + (FlattenAll(ds[1..]) + rest);
      SubtreeCollected(ds[0], FlattenAll(ds[1..]) + rest, depth);
      ForestCollected(ds[1..], rest, depth);
    }
  }

  lemma AppendNothing<T>(s: seq<T>)
    ensures s + [] == s
  {
  }

  /** `dieChildren` inverts tree flattening: wherever a tree sits in the stream, it returns exactly
   *  the root's direct children, in order, and nothing past the null entry that ends their chain
   *  has any influence. */
  lemma ChildrenOfTree(before: seq<Entry>, d: Die, after: seq<Entry>)
    requires WellFormed(d) && d.flagged
    ensures var stream := before + Flatten(d) + after;
            && stream[|before|] == Head(d)
            && Collected(stream, |before| + 1, 0) == Heads(d.kids)
  {
    hide Collected, FlattenAll, Heads;
    var rest := [NULL_ENTRY] + after;
    var stream := before + Flatten(d) + after;
    AppendNothing(Heads(d.kids));
    assert stream == (before + [Head(d)]) + (FlattenAll(d.kids) + rest);
    CollectedShift(before + [Head(d)], FlattenAll(d.kids) + rest, 0, 0);
    ForestCollected(d.kids, rest, 0);
    CollectedCons(NULL_ENTRY, after, 0);
  }
}
