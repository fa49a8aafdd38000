/**
 * Bytes, 2-bit symbol codes and the alphabet tables `alphabet` / `rc_alphabet`
 * through which every level-1 comparison and label goes.
 */
module Encoding {

  /** An unsigned byte of the input text. */
  type Byte = b: int | 0 <= b < 256

  /** A 2-bit symbol code. The level-1 label packing only handles codes below 4. */
  type Code = c: int | 0 <= c < 4

  /** The byte value of an ASCII character literal. */
  function Ch(c: char): Byte
    requires c as int < 256
  {
    c as int
  }

  /** The forward and the reverse-complement lookup table, each indexed by a byte. */
  datatype Alphabet = Alphabet(fwd: seq<Code>, rc: seq<Code>)

  predicate IsTable(t: seq<Code>) {
    |t| == 256
  }

  predicate ValidAlphabet(enc: Alphabet) {
    IsTable(enc.fwd) && IsTable(enc.rc)
  }

  /** The DNA entries of the default forward table: A/C/G/T in either case map to 0/1/2/3. */
  predicate DnaTable(t: seq<Code>) {
    && IsTable(t)
    && t[Ch('A')] == 0 && t[Ch('C')] == 1 && t[Ch('G')] == 2 && t[Ch('T')] == 3
    && t[Ch('a')] == 0 && t[Ch('c')] == 1 && t[Ch('g')] == 2 && t[Ch('t')] == 3
  }

  /** The DNA entries of the default reverse-complement table: A/C/G/T map to 3/2/1/0. */
  predicate DnaRcTable(t: seq<Code>) {
    && IsTable(t)
    && t[Ch('A')] == 3 && t[Ch('C')] == 2 && t[Ch('G')] == 1 && t[Ch('T')] == 0
    && t[Ch('a')] == 3 && t[Ch('c')] == 2 && t[Ch('g')] == 1 && t[Ch('t')] == 0
  }

  /** The symbol sequence a parser sees: every byte looked up in the table. */
  function Encode(t: seq<Code>, str: seq<Byte>): (s: seq<int>)
    requires IsTable(t)
    ensures |s| == |str|
    ensures forall i :: 0 <= i < |str| ==> s[i] == t[str[i]] && 0 <= s[i] < 4
  {
    seq(|str|, i requires 0 <= i < |str| => t[str[i]] as int)
  }

  /** On a DNA table pair the two codes of every nucleotide add up to 3. */
  lemma DnaCodesComplement(enc: Alphabet, b: Byte)
    requires DnaTable(enc.fwd) && DnaRcTable(enc.rc)
    requires b in {Ch('A'), Ch('C'), Ch('G'), Ch('T'), Ch('a'), Ch('c'), Ch('g'), Ch('t')}
    ensures enc.fwd[b] + enc.rc[b] == 3
  {
  }

  /** The bytes of str in reverse order: r[k] == str[|str| - 1 - k]. */
  function Reversed(str: seq<Byte>): (r: seq<Byte>)
    ensures |r| == |str|
  {
    seq(|str|, k requires 0 <= k < |str| => str[|str| - 1 - k])
  }

  lemma ReversedInvolutive(str: seq<Byte>)
    ensures Reversed(Reversed(str)) == str
  {
  }
}
