/**
 * The 32-bit hash of core.c (`murmurhash32`), in the MurmurHash3_x86_32 style: block
 * rounds over the little-endian 4-byte blocks, a tail step, `h ^= len` and the fmix32
 * finaliser. Unsigned 32-bit arithmetic is written out: a word is an integer below 2^32,
 * products and sums are taken modulo 2^32 and xor is defined bit by bit.
 *
 * The function follows core.c, not MurmurHash3_x86_32 itself: each block round rotates h
 * by 15 where MurmurHash3 rotates it by 13, and the tail `switch` breaks after cases 3 and
 * 2, so only a tail of exactly one byte reaches the hash. `FallThroughHash` is the same
 * function with the tail cases falling through (the rotation by 15 is kept). The only
 * caller hashes 16 bytes, where the two agree (`HashOfWords`).
 */
module Murmur {
  import opened Encoding

  const Modulus: int := 0x1_0000_0000

  /** An unsigned 32-bit value. */
  type Word = x: int | 0 <= x < 0x1_0000_0000

  function Pow2(n: nat): (r: nat)
    ensures r >= 1
  {
    if n == 0 then 1 else 2 * Pow2(n - 1)
  }

  /** Bitwise exclusive or of two naturals, one bit at a time from the least significant. */
  function XorBits(a: nat, b: nat): nat
    decreases a + b
  {
    if a == 0 && b == 0 then 0
    else 2 * XorBits(a / 2, b / 2) + (if a % 2 == b % 2 then 0 else 1)
  }

  lemma {:induction false} XorBitsBound(a: nat, b: nat, n: nat)
    requires a < Pow2(n) && b < Pow2(n)
    ensures XorBits(a, b) < Pow2(n)
    decreases n
  {
    if !(a == 0 && b == 0) {
      assert n > 0;
      XorBitsBound(a / 2, b / 2, n - 1);
    }
  }

  lemma Pow2Word()
    ensures Pow2(32) == Modulus
  {
    assert Pow2(4) == 0x10;
    assert Pow2(8) == 0x100;
    assert Pow2(12) == 0x1000;
    assert Pow2(16) == 0x1_0000;
    assert Pow2(20) == 0x10_0000;
    assert Pow2(24) == 0x100_0000;
    assert Pow2(28) == 0x1000_0000;
  }

  function Xor(a: Word, b: Word): Word {
    Pow2Word();
    XorBitsBound(a, b, 32);
    XorBits(a, b)
  }

  /** x * c modulo 2^32. */
  function Mul(x: Word, c: Word): Word {
    (x * c) % Modulus
  }

  /** rotl32(x, 15) = (x << 15) | (x >> 17); the two parts have no bit in common. */
  function Rotl15(x: Word): Word {
    (x * 0x8000) % Modulus + x / 0x2_0000
  }

  const C1: Word := 0xcc9e2d51
  const C2: Word := 0x1b873593

  /** k *= c1; k = rotl32(k, 15); k *= c2. */
  function Scramble(k: Word): Word {
    Mul(Rotl15(Mul(k, C1)), C2)
  }

  /** One body round: h ^= scramble(k); h = rotl32(h, 15); h = h * 5 + 0xe6546b64. */
  function Round(h: Word, k: Word): Word {
    (Mul(Rotl15(Xor(h, Scramble(k))), 5) + 0xe6546b64) % Modulus
  }

  function Fmix(h: Word): Word {
    var h1 := Xor(h, h / 0x1_0000);
    var h2 := Mul(h1, 0x85ebca6b);
    var h3 := Xor(h2, h2 / 0x2000);
    var h4 := Mul(h3, 0xc2b2ae35);
    Xor(h4, h4 / 0x1_0000)
  }

  /** Block j of the key, read as a little-endian 32-bit word. */
  function Block(key: seq<Byte>, j: nat): Word
    requires 4 * j + 4 <= |key|
  {
    key[4 * j] as int + 0x100 * key[4 * j + 1] as int + 0x1_0000 * key[4 * j + 2] as int
    + 0x100_0000 * key[4 * j + 3] as int
  }

  /** The hash state after the first n block rounds. */
  function Body(key: seq<Byte>, seed: Word, n: nat): Word
    requires 4 * n <= |key|
  {
    if n == 0 then seed else Round(Body(key, seed, n - 1), Block(key, n - 1))
  }

  /** The tail step as written: cases 3 and 2 only touch k1 and break before mixing it in. */
  function Tail(key: seq<Byte>, h: Word): Word {
    var t := 4 * (|key| / 4);
    match |key| % 4
    case 1 => Xor(h, Scramble(key[t]))
    case _ => h
  }

  /** h1 ^= len; fmix32(h1). */
  function Finish(h: Word, len: Word): Word {
    Fmix(Xor(h, len))
  }

  /** murmurhash32(key, len, seed), where `len` (a C int) is the key's length. */
  function Hash(key: seq<Byte>, seed: Word): Word
    requires |key| < 0x8000_0000
  {
    Finish(Tail(key, Body(key, seed, |key| / 4)), |key|)
  }

  /** The tail step with its cases falling through: every tail byte reaches k1, which is mixed in. */
  function FallThroughTail(key: seq<Byte>, h: Word): Word {
    var t := 4 * (|key| / 4);
    var r := |key| % 4;
    if r == 0 then h
    else
      var k3: Word := if r == 3 then 0x1_0000 * key[t + 2] as int else 0;
      var k2: Word := if r >= 2 then Xor(k3, 0x100 * key[t + 1] as int) else k3;
      Xor(h, Scramble(Xor(k2, key[t])))
  }

  function FallThroughHash(key: seq<Byte>, seed: Word): Word
    requires |key| < 0x8000_0000
  {
    Finish(FallThroughTail(key, Body(key, seed, |key| / 4)), |key|)
  }

  /** The loop of core.c, the block index running from -nblocks up to 0 as in the source. */
  method MurmurHash32(key: seq<Byte>, seed: Word) returns (h: Word)
    requires |key| < 0x8000_0000
    ensures h == Hash(key, seed)
  {
    var nblocks := |key| / 4;
    var h1 := seed;
    var i := -nblocks;
    while i != 0
      invariant -nblocks <= i <= 0
      invariant h1 == Body(key, seed, nblocks + i)
      decreases -i
    {
      var k1 := Block(key, nblocks + i);
      k1 := Mul(k1, C1);
      k1 := Rotl15(k1);
      k1 := Mul(k1, C2);
      h1 := Xor(h1, k1);
      h1 := Rotl15(h1);
      h1 := (Mul(h1, 5) + 0xe6546b64) % Modulus;
      i := i + 1;
    }
    var tail := 4 * nblocks;
    var k1: Word := 0;
    var r := |key| % 4;
    if r == 3 {
      k1 := Xor(k1, 0x1_0000 * key[tail + 2] as int);
    } else if r == 2 {
      k1 := Xor(k1, 0x100 * key[tail + 1] as int);
    } else if r == 1 {
      k1 := Xor(k1, key[tail]);
      XorBitsZero(key[tail]);
      k1 := Mul(k1, C1);
      k1 := Rotl15(k1);
      k1 := Mul(k1, C2);
      h1 := Xor(h1, k1);
    }
    h1 := Xor(h1, |key|);
    h1 := Xor(h1, h1 / 0x1_0000);
    h1 := Mul(h1, 0x85ebca6b);
    h1 := Xor(h1, h1 / 0x2000);
    h1 := Mul(h1, 0xc2b2ae35);
    h1 := Xor(h1, h1 / 0x1_0000);
    h := h1;
  }

  /** With a tail of zero or one byte the breaks make no difference. */
  lemma AgreesWithFallThrough(key: seq<Byte>, seed: Word)
    requires |key| < 0x8000_0000
    requires |key| % 4 == 0 || |key| % 4 == 1
    ensures Hash(key, seed) == FallThroughHash(key, seed)
  {
    var t := 4 * (|key| / 4);
    if |key| % 4 == 1 {
      assert XorBits(0, key[t]) == key[t] by {
        XorBitsZero(key[t]);
      }
    }
  }

  lemma {:induction false} XorBitsZero(b: nat)
    ensures XorBits(0, b) == b
    decreases b
  {
    if b != 0 {
      XorBitsZero(b / 2);
    }
  }

  /** The body rounds only look at the whole blocks they consume. */
  lemma BodyOnlyReadsBlocks(a: seq<Byte>, b: seq<Byte>, seed: Word, n: nat)
    requires 4 * n <= |a| && 4 * n <= |b|
    requires a[..4 * n] == b[..4 * n]
    ensures Body(a, seed, n) == Body(b, seed, n)
  {
    assert forall k :: 0 <= k < 4 * n ==> a[k] == a[..4 * n][k] && b[k] == b[..4 * n][k];
    BodyAgrees(a, b, seed, n);
  }

  lemma {:induction false} BodyAgrees(a: seq<Byte>, b: seq<Byte>, seed: Word, n: nat)
    requires 4 * n <= |a| && 4 * n <= |b|
    requires forall k :: 0 <= k < 4 * n ==> a[k] == b[k]
    ensures Body(a, seed, n) == Body(b, seed, n)
  {
    if n > 0 {
      BodyAgrees(a, b, seed, n - 1);
      assert Block(a, n - 1) == Block(b, n - 1);
    }
  }

  /** As written, the bytes of a 2- or 3-byte tail never change the hash. */
  lemma TailBytesIgnored(a: seq<Byte>, b: seq<Byte>, seed: Word)
    requires |a| == |b| < 0x8000_0000
    requires |a| % 4 == 2 || |a| % 4 == 3
    requires a[..4 * (|a| / 4)] == b[..4 * (|b| / 4)]
    ensures Hash(a, seed) == Hash(b, seed)
  {
    BodyOnlyReadsBlocks(a, b, seed, |a| / 4);
  }

  /** Concretely: every two-byte key hashes like the key [0, 0]. */
  lemma TwoByteKeysCollide(x: Byte, y: Byte, seed: Word)
    ensures Hash([x, y], seed) == Hash([0, 0], seed)
  {
    TailBytesIgnored([x, y], [0, 0], seed);
  }

  /** Byte k (0 = least significant) of a 32-bit word. */
  function ByteOf(w: Word, k: int): Byte {
    if k == 0 then w % 0x100
    else if k == 1 then (w / 0x100) % 0x100
    else if k == 2 then (w / 0x1_0000) % 0x100
    else w / 0x100_0000
  }

  /** Little-endian bytes of 32-bit words, the in-memory layout of a C `uint32_t` array. */
  function WordBytes(ws: seq<Word>): (r: seq<Byte>)
    ensures |r| == 4 * |ws|
  {
    seq(4 * |ws|, i requires 0 <= i < 4 * |ws| => ByteOf(ws[i / 4], i % 4))
  }

  /** The block rounds applied directly to a sequence of words. */
  function WordRounds(ws: seq<Word>, seed: Word): Word {
    if ws == [] then seed else Round(WordRounds(ws[..|ws| - 1], seed), ws[|ws| - 1])
  }

  /** Reading block j of the byte image gives back word j. */
  lemma BlockOfWordBytes(ws: seq<Word>, j: nat)
    requires j < |ws|
    ensures Block(WordBytes(ws), j) == ws[j]
  {
    var bs := WordBytes(ws);
    var w := ws[j];
    assert (4 * j) / 4 == j && (4 * j + 1) / 4 == j && (4 * j + 2) / 4 == j && (4 * j + 3) / 4 == j;
    assert (4 * j) % 4 == 0 && (4 * j + 1) % 4 == 1 && (4 * j + 2) % 4 == 2 && (4 * j + 3) % 4 == 3;
    assert bs[4 * j] == ByteOf(w, 0) && bs[4 * j + 1] == ByteOf(w, 1);
    assert bs[4 * j + 2] == ByteOf(w, 2) && bs[4 * j + 3] == ByteOf(w, 3);
    BytesOfWord(w);
  }

  /** The four little-endian bytes of a word put back together give the word. */
  lemma BytesOfWord(w: Word)
    ensures ByteOf(w, 0) + 0x100 * ByteOf(w, 1) + 0x1_0000 * ByteOf(w, 2) + 0x100_0000 * ByteOf(w, 3) == w
  {
    var q1 := w / 0x100;
    var q2 := w / 0x1_0000;
    var q3 := w / 0x100_0000;
    assert q2 == q1 / 0x100 && q3 == q2 / 0x100;
    assert w == w % 0x100 + 0x100 * q1;
    assert q1 == q1 % 0x100 + 0x100 * q2;
    assert q2 == q2 % 0x100 + 0x100 * q3;
  }

  lemma {:induction false} BodyOfWordBytes(ws: seq<Word>, seed: Word, n: nat)
    requires n <= |ws|
    ensures Body(WordBytes(ws), seed, n) == WordRounds(ws[..n], seed)
  {
    if n > 0 {
      BodyOfWordBytes(ws, seed, n - 1);
      BlockOfWordBytes(ws, n - 1);
      assert ws[..n][..n - 1] == ws[..n - 1];
    }
  }

  /**
   * Hashing whole words: the block rounds consume exactly the words, the tail is empty, and
   * the result agrees with the fall-through variant.
   */
  lemma HashOfWords(ws: seq<Word>, seed: Word)
    requires |ws| < 0x2000_0000
    ensures Hash(WordBytes(ws), seed) == Finish(WordRounds(ws, seed), 4 * |ws|)
    ensures Hash(WordBytes(ws), seed) == FallThroughHash(WordBytes(ws), seed)
  {
    var key := WordBytes(ws);
    assert |key| / 4 == |ws| && |key| % 4 == 0;
    BodyOfWordBytes(ws, seed, |ws|);
    assert ws[..|ws|] == ws;
    var h := Body(key, seed, |ws|);
    assert h == WordRounds(ws, seed);
    WholeBlocksHaveNoTail(key, h);
    assert Hash(key, seed) == Finish(h, |key|);
    assert FallThroughHash(key, seed) == Finish(h, |key|);
  }

  /** A key made of whole blocks leaves the state unchanged in either tail step. */
  lemma WholeBlocksHaveNoTail(key: seq<Byte>, h: Word)
    requires |key| % 4 == 0
    ensures Tail(key, h) == h && FallThroughTail(key, h) == h
  {
  }
}
