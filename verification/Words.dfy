/**
 Bytes and little-endian 32-bit words, the memory that the kernel's headers, page tables,
 user stacks and disk tables are made of.
 */
module Words {

  const WORD := 0x1_0000_0000

  type u8 = x: int | 0 <= x < 256
  type u32 = x: int | 0 <= x < 0x1_0000_0000

  function Pow256(k: nat): nat {
    if k == 0 then 1 else 256 * Pow256(k - 1)
  }

  /** Little-endian value of a byte string. */
  function Value(b: seq<u8>): (w: nat)
    ensures w < Pow256(|b|)
  {
    if b == [] then 0 else (b[0] as int) + 256 * Value(b[1..])
  }

  /** The k low bytes of w, low byte first. */
  function Bytes(w: nat, k: nat): (b: seq<u8>)
    ensures |b| == k
    ensures w < Pow256(k) ==> Value(b) == w
  {
    if k == 0 then [] else [w % 256] + Bytes(w / 256, k - 1)
  }

  lemma Pow256Four()
    ensures Pow256(4) == WORD
  {
    assert Pow256(1) == 256 && Pow256(2) == 0x1_0000;
  }

  /** The word stored at byte offset a. */
  function Read32(m: seq<u8>, a: nat): (w: u32)
    requires a + 4 <= |m|
  {
    Pow256Four();
    Value(m[a..a + 4])
  }

  /** The word with these bytes, the least significant one first. */
  function Word(a: int, b: int, c: int, d: int): int { a + 0x100 * b + 0x1_0000 * c + 0x100_0000 * d }

  /** Little-endian: the byte at a counts once, the next one 256 times, and so on. */
  lemma Read32Is(m: seq<u8>, a: nat)
    requires a + 4 <= |m|
    ensures Read32(m, a) == Word(m[a], m[a + 1], m[a + 2], m[a + 3])
    ensures Read32(m, a) - (m[a] as int) ==
            0x100 * (m[a + 1] as int) + 0x1_0000 * (m[a + 2] as int) + 0x100_0000 * (m[a + 3] as int)
  {
    var b := m[a..a + 4];
    var c := b[1..];
    var d := c[1..];
    assert Value(b) == b[0] + 256 * Value(c) && Value(c) == c[0] + 256 * Value(d);
    assert Value(d) == d[0] + 256 * Value(d[1..]) && Value(d[1..]) == d[1] + 256 * Value(d[1..][1..]);
    assert d[1..][1..] == [];
  }

  /** Memory after storing the bytes b from offset a on, one after the other. */
  function WriteBytes(m: seq<u8>, a: nat, b: seq<u8>): (r: seq<u8>)
    requires a + |b| <= |m|
    ensures |r| == |m|
    ensures r[a..a + |b|] == b
    ensures forall i :: 0 <= i < |m| && !(a <= i < a + |b|) ==> r[i] == m[i]
    decreases |b|
  {
    if b == [] then m
    else
      var r := WriteBytes(m[a := b[0]], a + 1, b[1..]);
      assert r[a..a + |b|] == [r[a]] + r[a + 1..a + 1 + |b[1..]|];
      r
  }

  /** Memory after storing w at byte offset a: that word reads back, every other byte stays. */
  function Write32(m: seq<u8>, a: nat, w: u32): (r: seq<u8>)
    requires a + 4 <= |m|
    ensures |r| == |m|
    ensures Read32(r, a) == w
    ensures forall i :: 0 <= i < |m| && !(a <= i < a + 4) ==> r[i] == m[i]
  {
    Pow256Four();
    WriteBytes(m, a, Bytes(w, 4))
  }

  /** A word disjoint from the bytes that changed reads the same. */
  lemma ReadUnchanged(m: seq<u8>, m': seq<u8>, a: nat)
    requires a + 4 <= |m| && a + 4 <= |m'|
    requires forall i :: a <= i < a + 4 ==> m'[i] == m[i]
    ensures Read32(m', a) == Read32(m, a)
  {
    assert m'[a..a + 4] == m[a..a + 4];
  }

  /** Adding to a 32-bit counter that holds a modulo 2^32. */
  lemma WrapAdd(a: int, n: int)
    ensures (a % WORD + n) % WORD == (a + n) % WORD
  {
    var q := a / WORD;
    assert a == q * WORD + a % WORD;
    WrapCancel(a % WORD + n, q);
  }

  lemma WrapCancel(x: int, q: int)
    ensures (x + q * WORD) % WORD == x % WORD
  {
    var r, k := x % WORD, x / WORD;
    assert x + q * WORD == (k + q) * WORD + r;
  }
}
