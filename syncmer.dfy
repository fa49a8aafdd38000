/**
 * experiment/sketches/syncmer.cpp: the k-mer [begin, end) is a syncmer when the leftmost
 * smallest of its s-mers, under the folded lexicographic order, starts at offset 0 or at
 * offset smerIndex. A syncmer holds the k-mer's encoding in 32 bits and its position.
 */
module Syncmer {
  import opened Encoding
  import opened Kmer
  import opened LexOrder

  /** `struct syncmer`: the encoded k-mer (uint32_t) and its position. */
  datatype Syncmer = Syncmer(kmer: nat, position: nat)

  /**
   * One past the last s-mer start the scan compares: begin always, then begin + 1 up to the
   * last start whose s-mer ends by end.
   */
  function SmerEnd(begin: nat, end: nat, s: nat): (hi: nat)
    ensures begin < hi
    ensures hi == begin + 1 || (hi + s == end + 1 && begin + s < end)
  {
    if begin + s <= end then end + 1 - s else begin + 1
  }

  /** Every s-mer the scan compares lies in the text. */
  predicate SmersFit(text: seq<Byte>, begin: nat, end: nat, s: nat) {
    SmerEnd(begin, end, s) - 1 + s <= |text|
  }

  /** The start of the leftmost smallest s-mer of the k-mer [begin, end). */
  ghost function SmerMin(text: seq<Byte>, begin: nat, end: nat, s: nat): (p: nat)
    requires SmersFit(text, begin, end, s)
    ensures begin <= p < SmerEnd(begin, end, s)
  {
    LeftmostMin(text, begin, SmerEnd(begin, end, s), s)
  }

  /** The selection rule: the leftmost smallest s-mer is at offset 0 or at offset smerIndex. */
  ghost predicate Selected(text: seq<Byte>, begin: nat, end: nat, s: nat, smerIndex: int)
    requires SmersFit(text, begin, end, s)
  {
    var p := SmerMin(text, begin, end, s);
    p == begin || p - begin == smerIndex
  }

  /**
   * The rule in terms of minima alone: the s-mer at offset 0, or the one at offset smerIndex,
   * is the leftmost smallest.
   */
  lemma SelectedIff(text: seq<Byte>, begin: nat, end: nat, s: nat, smerIndex: int)
    requires SmersFit(text, begin, end, s)
    ensures Selected(text, begin, end, s, smerIndex) <==>
      var hi := SmerEnd(begin, end, s);
      IsLeftmostMin(text, begin, hi, s, begin) ||
      (0 <= smerIndex && begin + smerIndex < hi && IsLeftmostMin(text, begin, hi, s, begin + smerIndex))
  {
    var hi := SmerEnd(begin, end, s);
    var p := SmerMin(text, begin, end, s);
    LeftmostMinIsLeftmostMin(text, begin, hi, s);
    if IsLeftmostMin(text, begin, hi, s, begin) {
      LeftmostMinUnique(text, begin, hi, s, begin, p);
    }
    if 0 <= smerIndex && begin + smerIndex < hi && IsLeftmostMin(text, begin, hi, s, begin + smerIndex) {
      LeftmostMinUnique(text, begin, hi, s, begin + smerIndex, p);
    }
  }

  /**
   * With smerIndex 0 the rule is that of open syncmers: the first s-mer is not larger than
   * any other s-mer of the k-mer.
   */
  lemma OpenSyncmer(text: seq<Byte>, begin: nat, end: nat, s: nat)
    requires SmersFit(text, begin, end, s)
    ensures Selected(text, begin, end, s, 0) <==>
      forall j :: begin <= j < SmerEnd(begin, end, s) ==> !LexLess(Folded(text, j, s), Folded(text, begin, s))
  {
    SelectedIff(text, begin, end, s, 0);
  }

  /**
   * The early return: once the running minimum is at an offset beyond smerIndex, the k-mer
   * cannot be selected, since the minimum of the whole scan lies no further left.
   */
  lemma EarlyReturnSound(text: seq<Byte>, begin: nat, end: nat, s: nat, smerIndex: int, cur: nat)
    requires SmersFit(text, begin, end, s) && begin < cur < SmerEnd(begin, end, s)
    requires IsLeftmostMin(text, begin, cur + 1, s, cur) && smerIndex < cur - begin
    ensures !Selected(text, begin, end, s, smerIndex)
  {
    LeftmostMinOf(text, begin, cur + 1, s, cur);
    LeftmostMinMonotone(text, begin, cur + 1, SmerEnd(begin, end, s), s);
  }

  /**
   * The scan of process and process3: min_smer starts at begin with min_smer_index pre-set
   * to smerIndex, a later s-mer replaces it only when strictly smaller, and the scan gives up
   * as soon as the minimum's offset passes smerIndex.
   */
  method Scan(text: seq<Byte>, begin: nat, end: nat, s: nat, smerIndex: int) returns (selected: bool)
    requires SmersFit(text, begin, end, s)
    ensures selected == Selected(text, begin, end, s, smerIndex)
  {
    ghost var hi := SmerEnd(begin, end, s);
    var minSmer: nat := begin;
    var minSmerIndex := smerIndex;
    var cur := begin + 1;
    LeftmostMinSingle(text, begin, s);
    while cur + s <= end
      invariant begin < cur <= hi
      invariant IsLeftmostMin(text, begin, cur, s, minSmer)
      invariant minSmerIndex == if minSmer == begin then smerIndex else minSmer - begin
      invariant minSmer == begin || minSmer - begin <= smerIndex
    {
      var less := Precedes(text, cur, minSmer, s);
      LeftmostMinExtend(text, begin, cur, s, minSmer);
      if less {
        minSmer := cur;
        minSmerIndex := cur - begin;
        if smerIndex < minSmerIndex {
          EarlyReturnSound(text, begin, end, s, smerIndex, cur);
          return false;
        }
      }
      cur := cur + 1;
    }
    assert cur == hi;
    LeftmostMinOf(text, begin, hi, s, minSmer);
    selected := minSmerIndex == smerIndex;
  }

  /**
   * process: a selected k-mer is appended with its 32-bit encoding and current_index; any
   * other leaves the vector unchanged.
   */
  method Process(text: seq<Byte>, begin: nat, end: nat, currentIndex: nat, kmerSize: nat, smerSize: nat,
                 smerIndex: int, syncmers: seq<Syncmer>, m: seq<int>)
    returns (syncmers': seq<Syncmer>)
    requires IsCodeMap(m) && SmersFit(text, begin, end, smerSize) && AsciiRange(text, begin, kmerSize)
    ensures syncmers' == if Selected(text, begin, end, smerSize, smerIndex)
                         then syncmers + [Syncmer(Kmer.Encode(m, text[begin..begin + kmerSize], Modulus32), currentIndex)]
                         else syncmers
  {
    var selected := Scan(text, begin, end, smerSize, smerIndex);
    if selected {
      var kmer := EncodeRange(m, text, begin, begin + kmerSize, Modulus32);
      syncmers' := syncmers + [Syncmer(kmer, currentIndex)];
    } else {
      syncmers' := syncmers;
    }
  }

  /**
   * process3: a selected k-mer has current_index pushed onto the list its 32-bit encoding
   * keys; any other leaves the map unchanged.
   */
  method Process3(text: seq<Byte>, begin: nat, end: nat, currentIndex: nat, kmerSize: nat, smerSize: nat,
                  smerIndex: int, m: seq<int>, index: KmerIndex)
    returns (index': KmerIndex)
    requires IsCodeMap(m) && SmersFit(text, begin, end, smerSize) && AsciiRange(text, begin, kmerSize)
    ensures index' == if Selected(text, begin, end, smerSize, smerIndex)
                      then Push(index, Kmer.Encode(m, text[begin..begin + kmerSize], Modulus32), currentIndex)
                      else index
  {
    var selected := Scan(text, begin, end, smerSize, smerIndex);
    if selected {
      var kmer := EncodeRange(m, text, begin, begin + kmerSize, Modulus32);
      index' := Push(index, kmer, currentIndex);
    } else {
      index' := index;
    }
  }
}
