/**
 * `struct core` (core.h) and its constructors (core.c): a 32-bit label together with the
 * half-open interval [start, end) of the input it covers. Every comparison looks only at
 * the two lowest bits of the label.
 */
module Core {
  import opened Encoding
  import Murmur

  /** `lbl` is the C field `label`, a reserved word in Dafny. */
  datatype Core = Core(lbl: Murmur.Word, start: nat, end: nat)

  /** `label & 3`, the part of a label that the comparison macros see. */
  function Class(c: Core): int {
    c.lbl % 4
  }

  predicate CoreEq(lhs: Core, rhs: Core) {
    Class(lhs) == Class(rhs)
  }

  predicate CoreNeq(lhs: Core, rhs: Core) {
    Class(lhs) != Class(rhs)
  }

  predicate CoreGt(lhs: Core, rhs: Core) {
    Class(lhs) > Class(rhs)
  }

  predicate CoreLt(lhs: Core, rhs: Core) {
    Class(lhs) < Class(rhs)
  }

  predicate CoreGeq(lhs: Core, rhs: Core) {
    Class(lhs) >= Class(rhs)
  }

  predicate CoreLeq(lhs: Core, rhs: Core) {
    Class(lhs) <= Class(rhs)
  }

  /** The six comparisons form one total preorder: exactly one of <, ==, > holds. */
  lemma ComparisonsAreConsistent(a: Core, b: Core)
    ensures CoreLt(a, b) || CoreEq(a, b) || CoreGt(a, b)
    ensures !(CoreLt(a, b) && CoreEq(a, b)) && !(CoreGt(a, b) && CoreEq(a, b)) && !(CoreLt(a, b) && CoreGt(a, b))
    ensures CoreNeq(a, b) <==> !CoreEq(a, b)
    ensures CoreLeq(a, b) <==> CoreLt(a, b) || CoreEq(a, b)
    ensures CoreGeq(a, b) <==> CoreGt(a, b) || CoreEq(a, b)
    ensures CoreLt(a, b) <==> CoreGt(b, a)
  {
  }

  /** Neither the interval nor the label bits above the lowest two influence a comparison. */
  lemma ComparisonsSeeOnlyLowBits(a: Core, b: Core, a': Core, b': Core)
    requires a.lbl % 4 == a'.lbl % 4 && b.lbl % 4 == b'.lbl % 4
    ensures CoreEq(a, b) == CoreEq(a', b') && CoreNeq(a, b) == CoreNeq(a', b')
    ensures CoreLt(a, b) == CoreLt(a', b') && CoreGt(a, b) == CoreGt(a', b')
    ensures CoreLeq(a, b) == CoreLeq(a', b') && CoreGeq(a, b) == CoreGeq(a', b')
  {
  }

  /**
   * The label of a level-1 core over `distance` symbols whose first, second-to-last and last
   * codes are c1, c2, c3: ((distance - 2) << 6) | (c1 << 4) | (c2 << 2) | c3, truncated to 32
   * bits. The low six bits of the shifted length are zero, so each `|` is a sum.
   */
  function PackLabel(distance: nat, c1: Code, c2: Code, c3: Code): (l: Murmur.Word)
    requires distance >= 2
    ensures l % 4 == c3
    ensures l / 4 % 4 == c2
    ensures l / 16 % 4 == c1
    ensures l / 64 == (distance - 2) % 0x400_0000
  {
    ShiftedLength(distance - 2);
    PackedFields((distance - 2) % 0x400_0000, c1, c2, c3);
    ((distance - 2) * 64) % Murmur.Modulus + c1 * 16 + c2 * 4 + c3
  }

  lemma ShiftedLength(q: nat)
    ensures (q * 64) % Murmur.Modulus == 64 * (q % 0x400_0000)
  {
    var r := q % 0x400_0000;
    assert q * 64 == Murmur.Modulus * (q / 0x400_0000) + 64 * r;
  }

  /** The four fields of 64 * q + 16 * c1 + 4 * c2 + c3 read back by division. */
  lemma PackedFields(q: nat, c1: Code, c2: Code, c3: Code)
    requires q < 0x400_0000
    ensures var l := 64 * q + c1 * 16 + c2 * 4 + c3;
      l < Murmur.Modulus && l % 4 == c3 && l / 4 % 4 == c2 && l / 16 % 4 == c1 && l / 64 == q
  {
    var l := 64 * q + c1 * 16 + c2 * 4 + c3;
    DivMod4(16 * q + 4 * c1 + c2, c3);
    DivMod4(4 * q + c1, c2);
    DivMod4(q, c1);
    assert l / 4 == 16 * q + 4 * c1 + c2;
    assert l / 16 == (l / 4) / 4;
    assert l / 64 == (l / 16) / 4;
  }

  lemma DivMod4(a: nat, r: nat)
    requires 0 <= r < 4
    ensures (a * 4 + r) / 4 == a && (a * 4 + r) % 4 == r
  {
  }

  /** Two labels with the same four fields are the same label. */
  lemma PackLabelInjective(d: nat, c1: Code, c2: Code, c3: Code, d': nat, c1': Code, c2': Code, c3': Code)
    requires d >= 2 && d' >= 2
    requires PackLabel(d, c1, c2, c3) == PackLabel(d', c1', c2', c3')
    ensures c1 == c1' && c2 == c2' && c3 == c3'
    ensures (d - 2) % 0x400_0000 == (d' - 2) % 0x400_0000
  {
  }

  /**
   * init_core1 and init_core2: a core over str[b .. b + distance) whose label packs the codes,
   * under `table`, of its first, second-to-last and last byte. init_core1 uses the forward
   * table and init_core2 the reverse-complement table; they differ in nothing else.
   */
  function InitCore(table: seq<Code>, str: seq<Byte>, b: nat, distance: nat, startIndex: nat, endIndex: nat): (cr: Core)
    requires IsTable(table)
    requires distance >= 2 && b + distance <= |str|
    ensures cr.start == startIndex && cr.end == endIndex
    ensures Class(cr) == table[str[b + distance - 1]]
    ensures cr.lbl / 4 % 4 == table[str[b + distance - 2]]
    ensures cr.lbl / 16 % 4 == table[str[b]]
    ensures cr.lbl / 64 == (distance - 2) % 0x400_0000
  {
    Core(PackLabel(distance, table[str[b]], table[str[b + distance - 2]], table[str[b + distance - 1]]),
         startIndex, endIndex)
  }

  function InitCore1(enc: Alphabet, str: seq<Byte>, b: nat, distance: nat, startIndex: nat, endIndex: nat): Core
    requires ValidAlphabet(enc)
    requires distance >= 2 && b + distance <= |str|
  {
    InitCore(enc.fwd, str, b, distance, startIndex, endIndex)
  }

  function InitCore2(enc: Alphabet, str: seq<Byte>, b: nat, distance: nat, startIndex: nat, endIndex: nat): Core
    requires ValidAlphabet(enc)
    requires distance >= 2 && b + distance <= |str|
  {
    InitCore(enc.rc, str, b, distance, startIndex, endIndex)
  }

  /** init_core2 is init_core1 with the two tables swapped. */
  lemma InitCore2IsInitCore1OnRc(enc: Alphabet, str: seq<Byte>, b: nat, distance: nat, s: nat, e: nat)
    requires ValidAlphabet(enc)
    requires distance >= 2 && b + distance <= |str|
    ensures InitCore2(enc, str, b, distance, s, e) == InitCore1(Alphabet(enc.rc, enc.fwd), str, b, distance, s, e)
  {
  }

  /** The four words init_core3 hashes: three labels and the distance minus 2, as uint32. */
  function Level3Words(src: seq<Core>, b: nat, distance: nat): (ws: seq<Murmur.Word>)
    requires distance >= 2 && b + distance <= |src|
    ensures |ws| == 4
  {
    [src[b].lbl, src[b + distance - 2].lbl, src[b + distance - 1].lbl, (distance - 2) % Murmur.Modulus]
  }

  /**
   * init_core3: a core over the cores src[b .. b + distance), spanning from the first one's
   * start to the last one's end, labelled by the hash (seed 42) of the four words. The label
   * is written as the four block rounds over the words and the final mix; InitCore3Label
   * shows this is the hash of their 16-byte image.
   */
  function InitCore3(src: seq<Core>, b: nat, distance: nat): (cr: Core)
    requires distance >= 2 && b + distance <= |src|
    ensures cr.start == src[b].start && cr.end == src[b + distance - 1].end
  {
    Core(Murmur.Finish(Murmur.WordRounds(Level3Words(src, b, distance), 42), 16), src[b].start, src[b + distance - 1].end)
  }

  /** The label is murmurhash32 over the little-endian bytes of the four words, seed 42. */
  lemma InitCore3Label(src: seq<Core>, b: nat, distance: nat)
    requires distance >= 2 && b + distance <= |src|
    ensures InitCore3(src, b, distance).lbl == Murmur.Hash(Murmur.WordBytes(Level3Words(src, b, distance)), 42)
    ensures InitCore3(src, b, distance).lbl == Murmur.FallThroughHash(Murmur.WordBytes(Level3Words(src, b, distance)), 42)
  {
    Murmur.HashOfWords(Level3Words(src, b, distance), 42);
  }

  /** The label of a level-3 core depends on the three labels and the distance only. */
  lemma InitCore3SeesLabels(src: seq<Core>, b: nat, src': seq<Core>, b': nat, distance: nat)
    requires distance >= 2 && b + distance <= |src| && b' + distance <= |src'|
    requires src[b].lbl == src'[b'].lbl
    requires src[b + distance - 2].lbl == src'[b' + distance - 2].lbl
    requires src[b + distance - 1].lbl == src'[b' + distance - 1].lbl
    ensures InitCore3(src, b, distance).lbl == InitCore3(src', b', distance).lbl
  {
    assert Level3Words(src, b, distance) == Level3Words(src', b', distance);
  }

  /** init_core3 reads only the first, second-to-last and last of its source cores. */
  lemma InitCore3Reads(src: seq<Core>, src': seq<Core>, b: nat, distance: nat)
    requires distance >= 2 && b + distance <= |src| && b + distance <= |src'|
    requires src[b] == src'[b] && src[b + distance - 2] == src'[b + distance - 2]
    requires src[b + distance - 1] == src'[b + distance - 1]
    ensures InitCore3(src, b, distance) == InitCore3(src', b, distance)
  {
    assert Level3Words(src, b, distance) == Level3Words(src', b, distance);
  }

  /** init_core4 stores its three arguments verbatim. */
  function InitCore4(l: Murmur.Word, start: nat, end: nat): (cr: Core)
    ensures cr.lbl == l && cr.start == start && cr.end == end
  {
    Core(l, start, end)
  }

  /** Reading the fields back and rebuilding gives the same core. */
  lemma InitCore4RoundTrip(c: Core)
    ensures InitCore4(c.lbl, c.start, c.end) == c
  {
  }

  /** Of any two cores, the later one starts and ends strictly further right. */
  predicate Ordered(cs: seq<Core>) {
    forall i, j :: 0 <= i < j < |cs| ==> cs[i].start < cs[j].start && cs[i].end < cs[j].end
  }

  /** The constructor and comparison cases exercised by tests/test_core.cpp. */
  lemma CoreTestCases()
    ensures var c := InitCore4(2, 0, 10); c.lbl == 2 && c.start == 0 && c.end == 10
    ensures var c1, c2, c3 := InitCore4(10, 0, 0), InitCore4(10, 1, 1), InitCore4(5, 2, 2);
      CoreEq(c1, c2) && CoreNeq(c1, c3) && CoreLt(c3, c1) && CoreGt(c1, c3) && CoreGeq(c1, c2) && CoreLeq(c3, c1)
  {
  }
}
