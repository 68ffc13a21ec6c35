/** Bytes and 64-bit little-endian words, as the probes and the decoder exchange them. */
module Words {

  type Byte = b: int | 0 <= b < 256

  type Bytes = seq<Byte>

  /** The content of one 64-bit register or one 8-byte memory cell. */
  type Word = w: Bytes | |w| == 8 witness [0, 0, 0, 0, 0, 0, 0, 0]

  const ZERO_WORD: Word := [0, 0, 0, 0, 0, 0, 0, 0]

  /** Number of addresses: 64-bit address arithmetic is modulo this. */
  const ADDRESSES: int := 0x1_0000_0000_0000_0000

  function LittleEndian(b: Bytes): nat
  {
    if b == [] then 0 else b[0] + 256 * LittleEndian(b[1..])
  }

  /** `readUint`: the first eight bytes, zero-extended when there are fewer. */
  function ReadUint(data: Bytes): nat
  {
    LittleEndian(if |data| >= 8 then data[..8] else data)
  }

  /** `binary.LittleEndian.PutUint64` for `count == 8`. */
  function ToBytes(n: nat, count: nat): (b: Bytes)
    ensures |b| == count
  {
    if count == 0 then [] else [n % 256] + ToBytes(n / 256, count - 1)
  }

  function PutUint64(n: nat): Word
  {
    ToBytes(n, 8)
  }

  /** A 64-bit pattern read as a signed number. */
  function Signed64(n: nat): int
  {
    if n < ADDRESSES / 2 then n else n - ADDRESSES
  }

  function Pow256(n: nat): nat
  {
    if n == 0 then 1 else 256 * Pow256(n - 1)
  }

  lemma {:induction false} LittleEndianBound(b: Bytes)
    ensures LittleEndian(b) < Pow256(|b|)
  {
    if b != [] {
      LittleEndianBound(b[1..]);
    }
  }

  lemma Pow256Eight()
    ensures Pow256(8) == ADDRESSES
  {
    assert Pow256(2) == 0x1_0000;
    assert Pow256(4) == 0x1_0000_0000;
    assert Pow256(6) == 0x1_0000_0000_0000;
  }

  lemma WordBound(w: Word)
    ensures LittleEndian(w) < ADDRESSES
  {
    LittleEndianBound(w);
    Pow256Eight();
  }

  /** Every 64-bit number has its word. */
  lemma {:induction false} ToBytesValue(n: nat, count: nat)
    requires n < Pow256(count)
    ensures LittleEndian(ToBytes(n, count)) == n
    decreases count
  {
    if count > 0 {
      assert n / 256 < Pow256(count - 1);
      ToBytesValue(n / 256, count - 1);
      assert ToBytes(n, count)[1..] == ToBytes(n / 256, count - 1);
    }
  }

  lemma PutValue(n: nat)
    requires n < ADDRESSES
    ensures LittleEndian(PutUint64(n)) == n
  {
    Pow256Eight();
    ToBytesValue(n, 8);
  }

  lemma FirstByte(b: Byte, n: nat)
    ensures (b + 256 * n) % 256 == b && (b + 256 * n) / 256 == n
  {
  }

  lemma {:induction false} ToBytesInverse(b: Bytes)
    ensures ToBytes(LittleEndian(b), |b|) == b
  {
    if b != [] {
      ToBytesInverse(b[1..]);
      FirstByte(b[0], LittleEndian(b[1..]));
    }
  }
}
