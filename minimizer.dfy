/**
 * experiment/sketches/minimizer.cpp: window minimizers over a text. A window is the range
 * [begin, end) of k-mer starts; `process` and `process3` pick the leftmost k-mer that is
 * smallest under the folded lexicographic order, `process2` and `process4` the leftmost one
 * whose smaller of the forward and reverse-complement encodings is least.
 */
module Minimizer {
  import opened Encoding
  import opened Kmer
  import opened LexOrder

  /** `struct minimizer`: the encoded k-mer and the position of its window. */
  datatype Minimizer = Minimizer(kmer: nat, position: nat)

  /** The starts a window of [begin, end) compares: begin always, and begin + 1 .. end - 1. */
  function WindowEnd(begin: nat, end: nat): (hi: nat)
    ensures begin < hi
  {
    if end > begin then end else begin + 1
  }

  /** The k-mers starting in [b, hi), at least one, lie in the text and index the 128-entry map. */
  predicate KmersAscii(text: seq<Byte>, b: nat, hi: nat, k: nat) {
    && b < hi
    && hi - 1 + k <= |text|
    && forall i :: b <= i < hi - 1 + k ==> text[i] < 128
  }

  /** Every k-mer of the window lies in the text and indexes the 128-entry map. */
  predicate WindowFits(text: seq<Byte>, begin: nat, end: nat, k: nat) {
    KmersAscii(text, begin, WindowEnd(begin, end), k)
  }

  lemma WindowAscii(text: seq<Byte>, begin: nat, end: nat, k: nat, j: nat)
    requires WindowFits(text, begin, end, k) && begin <= j < WindowEnd(begin, end)
    ensures AsciiRange(text, j, k)
  {
  }

  /**
   * The scan of process and process3: the first k-mer is the default minimum, and a later one
   * replaces it only when it is strictly smaller, so the leftmost minimum wins.
   */
  method ScanWindow(text: seq<Byte>, begin: nat, end: nat, k: nat) returns (p: nat)
    requires WindowEnd(begin, end) - 1 + k <= |text|
    ensures p == WindowMin(text, begin, end, k)
  {
    p := begin;
    var cur := begin + 1;
    LeftmostMinSingle(text, begin, k);
    while cur < end
      invariant begin < cur <= WindowEnd(begin, end)
      invariant IsLeftmostMin(text, begin, cur, k, p)
    {
      var less := Precedes(text, cur, p, k);
      LeftmostMinExtend(text, begin, cur, k, p);
      if less {
        p := cur;
      }
      cur := cur + 1;
    }
    LeftmostMinOf(text, begin, cur, k, p);
  }

  /** The window's leftmost least k-mer under the folded order. */
  ghost function WindowMin(text: seq<Byte>, begin: nat, end: nat, k: nat): (p: nat)
    requires WindowEnd(begin, end) - 1 + k <= |text|
    ensures begin <= p < WindowEnd(begin, end)
  {
    LeftmostMin(text, begin, WindowEnd(begin, end), k)
  }

  /** The append rule of process and process2: x is appended unless the last minimizer has its position. */
  function Appended(ms: seq<Minimizer>, x: Minimizer): seq<Minimizer> {
    if |ms| == 0 || ms[|ms| - 1].position != x.position then ms + [x] else ms
  }

  /**
   * process: the window's leftmost minimal k-mer, encoded, with position index + its offset,
   * is appended unless the last minimizer already has that position.
   */
  method Process(text: seq<Byte>, begin: nat, end: nat, index: nat, k: nat, minimizers: seq<Minimizer>, m: seq<int>)
    returns (minimizers': seq<Minimizer>)
    requires IsCodeMap(m) && WindowFits(text, begin, end, k)
    ensures var p := WindowMin(text, begin, end, k);
      minimizers' == Appended(minimizers, Minimizer(Kmer.Encode(m, text[p..p + k], Modulus64), index + (p - begin)))
  {
    var p := ScanWindow(text, begin, end, k);
    WindowAscii(text, begin, end, k, p);
    var pos := index + (p - begin);
    if |minimizers| == 0 || minimizers[|minimizers| - 1].position != pos {
      var code := EncodeRange(m, text, p, p + k, Modulus64);
      minimizers' := minimizers + [Minimizer(code, pos)];
    } else {
      minimizers' := minimizers;
    }
  }

  /** Consecutive positions strictly increase and lie at most w apart. */
  predicate Spaced(ms: seq<Minimizer>, w: nat) {
    forall i :: 0 < i < |ms| ==> ms[i - 1].position < ms[i].position <= ms[i - 1].position + w
  }

  /**
   * The loop of findMinimizers (experiment/famin.cpp): process on every window of w k-mers
   * starting at 0, 1, ... while the window and its k-mers end before the text's last byte.
   * Consecutive minimizers are strictly increasing and at most w apart, which is what the
   * assert after the loop checks.
   */
  method FindMinimizers(text: seq<Byte>, k: nat, w: nat, m: seq<int>) returns (minimizers: seq<Minimizer>)
    requires IsCodeMap(m) && IsAscii(text) && 1 <= w
    ensures Spaced(minimizers, w)
  {
    minimizers := [];
    var i := 0;
    while i + w + k < |text|
      invariant Spaced(minimizers, w)
      invariant i == 0 ==> minimizers == []
      invariant 0 < i ==> i - 1 + w + k < |text|
      invariant 0 < i ==> |minimizers| > 0 && minimizers[|minimizers| - 1].position == WindowMin(text, i - 1, i - 1 + w, k)
      decreases |text| - i
    {
      if 0 < i {
        SlidingWindowMin(text, i, w, k);
      }
      assert KmersAscii(text, i, i + w, k);
      ghost var before := minimizers;
      minimizers := ProcessAt(text, i, k, w, m, minimizers);
      if |before| == 0 || before[|before| - 1].position != WindowMin(text, i, i + w, k) {
        SpacedAppend(before, minimizers[|minimizers| - 1], w);
      }
      i := i + 1;
    }
  }

  /**
   * process on the window of w k-mers at i with index i, as findMinimizers calls it, seen
   * through the positions only: the last minimizer is the window's, appended or already there.
   */
  method ProcessAt(text: seq<Byte>, i: nat, k: nat, w: nat, m: seq<int>, minimizers: seq<Minimizer>)
    returns (minimizers': seq<Minimizer>)
    requires IsCodeMap(m) && 1 <= w && KmersAscii(text, i, i + w, k)
    ensures var pos := WindowMin(text, i, i + w, k);
      && |minimizers'| > 0 && minimizers'[|minimizers'| - 1].position == pos
      && minimizers' == if |minimizers| == 0 || minimizers[|minimizers| - 1].position != pos
                        then minimizers + [minimizers'[|minimizers'| - 1]] else minimizers
  {
    minimizers' := Process(text, i, i + w, i, k, minimizers, m);
  }

  /** Sliding a window of w k-mers by one moves its minimum forward by at most w. */
  lemma SlidingWindowMin(text: seq<Byte>, i: nat, w: nat, k: nat)
    requires 1 <= i && 1 <= w && i + w - 1 + k <= |text|
    ensures WindowMin(text, i - 1, i - 1 + w, k) <= WindowMin(text, i, i + w, k) <= WindowMin(text, i - 1, i - 1 + w, k) + w
  {
    SlidingLeftmostMin(text, i, w, k);
  }

  /** Appending a position that is at most w beyond the last one, and different, keeps the spacing. */
  lemma SpacedAppend(ms: seq<Minimizer>, x: Minimizer, w: nat)
    requires Spaced(ms, w)
    requires |ms| > 0 ==> ms[|ms| - 1].position < x.position <= ms[|ms| - 1].position + w
    ensures Spaced(ms + [x], w)
  {
  }

  /**
   * process3: the same choice as process, filed in the map under the k-mer's encoding unless
   * it is the minimizer of the previous window; returns its position.
   */
  method Process3(text: seq<Byte>, begin: nat, end: nat, previousIndex: int, currentIndex: nat, k: nat,
                  m: seq<int>, index: KmerIndex)
    returns (pos: nat, index': KmerIndex)
    requires IsCodeMap(m) && WindowFits(text, begin, end, k)
    ensures var p := WindowMin(text, begin, end, k);
      pos == currentIndex + (p - begin) &&
      index' == if previousIndex == -1 || previousIndex != pos
                then Push(index, Kmer.Encode(m, text[p..p + k], Modulus64), pos)
                else index
  {
    var p := ScanWindow(text, begin, end, k);
    WindowAscii(text, begin, end, k, p);
    pos := currentIndex + (p - begin);
    if previousIndex == -1 || previousIndex != pos {
      var code := EncodeRange(m, text, p, p + k, Modulus64);
      index' := Push(index, code, pos);
    } else {
      index' := index;
    }
  }

  // ---------------------------------------------------------------------------------------
  // Canonical minimizers: process2 and process4

  /** v is the least of vals[..n] and p the leftmost index that holds it. */
  predicate IsLeast(vals: seq<int>, n: nat, v: int, p: nat) {
    && p < n <= |vals|
    && v == vals[p]
    && (forall j :: 0 <= j < n ==> v <= vals[j])
    && (forall j :: 0 <= j < p ==> v < vals[j])
  }

  /** The leftmost least of vals[..n], found from the left. */
  function LeastIndex(vals: seq<int>, n: nat): (p: nat)
    requires 0 < n <= |vals|
    ensures p < n
  {
    if n == 1 then 0
    else
      var q := LeastIndex(vals, n - 1);
      if vals[n - 1] < vals[q] then n - 1 else q
  }

  /** A longer prefix keeps its leftmost least unless the new value is strictly smaller. */
  lemma LeastExtend(vals: seq<int>, n: nat, v: int, p: nat)
    requires n < |vals| && IsLeast(vals, n, v, p)
    ensures vals[n] < v ==> IsLeast(vals, n + 1, vals[n], n)
    ensures v <= vals[n] ==> IsLeast(vals, n + 1, v, p)
  {
  }

  lemma LeastUnique(vals: seq<int>, n: nat, v: int, p: nat, v': int, p': nat)
    requires IsLeast(vals, n, v, p) && IsLeast(vals, n, v', p')
    ensures v == v' && p == p'
  {
  }

  /** Any leftmost least is the one LeastIndex finds. */
  lemma LeastIndexOf(vals: seq<int>, n: nat, v: int, p: nat)
    requires 0 < n <= |vals| && IsLeast(vals, n, v, p)
    ensures p == LeastIndex(vals, n) && v == vals[p]
  {
    LeastIndexIsLeast(vals, n);
    LeastUnique(vals, n, v, p, vals[LeastIndex(vals, n)], LeastIndex(vals, n));
  }

  /** LeastIndex finds the leftmost least. */
  lemma {:induction false} LeastIndexIsLeast(vals: seq<int>, n: nat)
    requires 0 < n <= |vals|
    ensures IsLeast(vals, n, vals[LeastIndex(vals, n)], LeastIndex(vals, n))
  {
    if n > 1 {
      LeastIndexIsLeast(vals, n - 1);
      LeastExtend(vals, n - 1, vals[LeastIndex(vals, n - 1)], LeastIndex(vals, n - 1));
    }
  }

  /** The canonical value of the k-mer at j: the smaller of its two encodings. */
  function Canonical(m: seq<int>, rc: seq<int>, text: seq<Byte>, j: nat, k: nat): nat
    requires IsCodeMap(m) && IsCodeMap(rc) && j + k <= |text|
  {
    var fwd, rev := Kmer.Encode(m, text[j..j + k], Modulus64), RcEncode(rc, text[j..j + k], Modulus64);
    if fwd < rev then fwd else rev
  }

  /** vals[t] is the canonical value of the k-mer at b + t, for every entry of vals. */
  predicate ValuesOf(m: seq<int>, rc: seq<int>, text: seq<Byte>, b: nat, k: nat, vals: seq<int>)
    requires IsCodeMap(m) && IsCodeMap(rc)
  {
    forall t :: 0 <= t < |vals| ==> b + t + k <= |text| && vals[t] == Canonical(m, rc, text, b + t, k)
  }

  /** The canonical values of the k-mers starting in [b, hi), in order. */
  ghost function CanonicalValues(m: seq<int>, rc: seq<int>, text: seq<Byte>, b: nat, hi: nat, k: nat): (vals: seq<int>)
    requires IsCodeMap(m) && IsCodeMap(rc) && b < hi && hi - 1 + k <= |text|
    ensures |vals| == hi - b && ValuesOf(m, rc, text, b, k, vals)
    decreases hi
  {
    if hi == b + 1 then [Canonical(m, rc, text, b, k)]
    else CanonicalValues(m, rc, text, b, hi - 1, k) + [Canonical(m, rc, text, hi - 1, k)]
  }

  /** The leftmost k-mer of [b, hi) with the least canonical value. */
  ghost function CanonicalArgMin(m: seq<int>, rc: seq<int>, text: seq<Byte>, b: nat, hi: nat, k: nat): (p: nat)
    requires IsCodeMap(m) && IsCodeMap(rc) && b < hi && hi - 1 + k <= |text|
    ensures b <= p < hi
  {
    b + LeastIndex(CanonicalValues(m, rc, text, b, hi, k), hi - b)
  }

  /**
   * CanonicalArgMin picks a k-mer whose canonical value no k-mer of the window undercuts, and
   * every k-mer before it has a strictly larger one.
   */
  lemma CanonicalArgMinIsMin(m: seq<int>, rc: seq<int>, text: seq<Byte>, b: nat, hi: nat, k: nat)
    requires IsCodeMap(m) && IsCodeMap(rc) && b < hi && hi - 1 + k <= |text|
    ensures var p := CanonicalArgMin(m, rc, text, b, hi, k);
      (forall j :: b <= j < hi ==> Canonical(m, rc, text, p, k) <= Canonical(m, rc, text, j, k)) &&
      (forall j :: b <= j < p ==> Canonical(m, rc, text, p, k) < Canonical(m, rc, text, j, k))
  {
    var vals := CanonicalValues(m, rc, text, b, hi, k);
    var q := LeastIndex(vals, hi - b);
    LeastIndexIsLeast(vals, hi - b);
    LeastIsCanonicalMin(m, rc, text, b, hi, k, vals, vals[q], q);
  }

  /** The leftmost least of values that are the window's canonical values bounds all of them. */
  lemma LeastIsCanonicalMin(m: seq<int>, rc: seq<int>, text: seq<Byte>, b: nat, hi: nat, k: nat,
                            vals: seq<int>, v: int, q: nat)
    requires IsCodeMap(m) && IsCodeMap(rc) && b < hi && hi - 1 + k <= |text|
    requires |vals| == hi - b && ValuesOf(m, rc, text, b, k, vals)
    requires IsLeast(vals, hi - b, v, q)
    ensures forall j :: b <= j < hi ==> v <= Canonical(m, rc, text, j, k)
    ensures forall j :: b <= j < b + q ==> v < Canonical(m, rc, text, j, k)
  {
    forall j | b <= j < hi
      ensures v <= Canonical(m, rc, text, j, k)
      ensures j < b + q ==> v < Canonical(m, rc, text, j, k)
    {
      assert vals[j - b] == Canonical(m, rc, text, j, k);
    }
  }

  /** A leftmost least of the window's canonical values is CanonicalArgMin and its value. */
  lemma CanonicalArgMinOf(m: seq<int>, rc: seq<int>, text: seq<Byte>, b: nat, hi: nat, k: nat, v: int, p: nat)
    requires IsCodeMap(m) && IsCodeMap(rc) && b < hi && hi - 1 + k <= |text| && b <= p
    requires IsLeast(CanonicalValues(m, rc, text, b, hi, k), hi - b, v, p - b)
    ensures p == CanonicalArgMin(m, rc, text, b, hi, k) && v == Canonical(m, rc, text, p, k)
  {
    var vals := CanonicalValues(m, rc, text, b, hi, k);
    LeastIndexOf(vals, hi - b, v, p - b);
    assert vals[p - b] == Canonical(m, rc, text, p, k);
  }

  /** The two encodings the scan computes give the canonical value. */
  lemma CanonicalOf(m: seq<int>, rc: seq<int>, text: seq<Byte>, j: nat, k: nat, fwd: nat, rev: nat)
    requires IsCodeMap(m) && IsCodeMap(rc) && j + k <= |text|
    requires fwd == Kmer.Encode(m, text[j..j + k], Modulus64) && rev == RcEncode(rc, text[j..j + k], Modulus64)
    ensures Canonical(m, rc, text, j, k) == if fwd < rev then fwd else rev
  {
  }

  /**
   * The scan of process2 and process4: the forward and then the reverse-complement encoding
   * of each later k-mer replace the minimum only when strictly smaller.
   */
  method CanonicalScan(m: seq<int>, rc: seq<int>, text: seq<Byte>, begin: nat, end: nat, k: nat)
    returns (v: nat, p: nat)
    requires IsCodeMap(m) && IsCodeMap(rc) && WindowFits(text, begin, end, k)
    ensures p == CanonicalArgMin(m, rc, text, begin, WindowEnd(begin, end), k)
    ensures v == Canonical(m, rc, text, p, k)
  {
    ghost var hi := WindowEnd(begin, end);
    ghost var vals := CanonicalValues(m, rc, text, begin, hi, k);
    v, p := CanonicalLoop(m, rc, text, begin, end, k, vals);
    CanonicalArgMinOf(m, rc, text, begin, hi, k, v, p);
  }

  /** The loop of CanonicalScan, over the canonical values vals of the window's k-mers. */
  method CanonicalLoop(m: seq<int>, rc: seq<int>, text: seq<Byte>, begin: nat, end: nat, k: nat, ghost vals: seq<int>)
    returns (v: nat, p: nat)
    requires IsCodeMap(m) && IsCodeMap(rc) && WindowFits(text, begin, end, k)
    requires vals == CanonicalValues(m, rc, text, begin, WindowEnd(begin, end), k)
    ensures begin <= p && IsLeast(vals, WindowEnd(begin, end) - begin, v, p - begin)
  {
    v := CanonicalValue(m, rc, text, begin, end, k, begin);
    assert vals[0] == Canonical(m, rc, text, begin, k);
    p := begin;
    var cur := begin + 1;
    while cur < end
      invariant begin < cur <= WindowEnd(begin, end) && begin <= p
      invariant IsLeast(vals, cur - begin, v, p - begin)
    {
      assert vals[cur - begin] == Canonical(m, rc, text, cur, k);
      v, p := CanonicalStep(m, rc, text, begin, end, k, vals, cur, v, p);
      cur := cur + 1;
    }
  }

  /** The smaller of the forward and reverse-complement encodings of the k-mer at j. */
  method CanonicalValue(m: seq<int>, rc: seq<int>, text: seq<Byte>, begin: nat, end: nat, k: nat, j: nat)
    returns (c: nat)
    requires IsCodeMap(m) && IsCodeMap(rc) && WindowFits(text, begin, end, k) && begin <= j < WindowEnd(begin, end)
    ensures c == Canonical(m, rc, text, j, k)
  {
    WindowAscii(text, begin, end, k, j);
    var fwd := EncodeRange(m, text, j, j + k, Modulus64);
    var rev := RcEncodeRange(rc, text, j, j + k, Modulus64);
    CanonicalOf(m, rc, text, j, k, fwd, rev);
    c := if fwd < rev then fwd else rev;
  }

  /**
   * One iteration of the scan at cur: the forward encoding replaces the minimum if strictly
   * smaller, then the reverse-complement encoding does.
   */
  method CanonicalStep(m: seq<int>, rc: seq<int>, text: seq<Byte>, begin: nat, end: nat, k: nat,
                       ghost vals: seq<int>, cur: nat, v: nat, p: nat)
    returns (v': nat, p': nat)
    requires IsCodeMap(m) && IsCodeMap(rc) && WindowFits(text, begin, end, k) && begin < cur < end && begin <= p
    requires cur - begin < |vals| && vals[cur - begin] == Canonical(m, rc, text, cur, k)
    requires IsLeast(vals, cur - begin, v, p - begin)
    ensures begin <= p' && IsLeast(vals, cur + 1 - begin, v', p' - begin)
  {
    WindowAscii(text, begin, end, k, cur);
    var fwd := EncodeRange(m, text, cur, cur + k, Modulus64);
    var rev := RcEncodeRange(rc, text, cur, cur + k, Modulus64);
    CanonicalOf(m, rc, text, cur, k, fwd, rev);
    LeastExtend(vals, cur - begin, v, p - begin);
    v', p' := v, p;
    if fwd < v' {
      v', p' := fwd, cur;
    }
    if rev < v' {
      v', p' := rev, cur;
    }
  }

  /**
   * process2: the leftmost least canonical value of the window, with position index + its
   * offset, is appended unless the last minimizer already has that position.
   */
  method Process2(text: seq<Byte>, begin: nat, end: nat, index: nat, k: nat, minimizers: seq<Minimizer>,
                  m: seq<int>, rc: seq<int>)
    returns (minimizers': seq<Minimizer>)
    requires IsCodeMap(m) && IsCodeMap(rc) && WindowFits(text, begin, end, k)
    ensures var p := CanonicalArgMin(m, rc, text, begin, WindowEnd(begin, end), k);
      minimizers' == Appended(minimizers, Minimizer(Canonical(m, rc, text, p, k), index + (p - begin)))
  {
    var v, p := CanonicalScan(m, rc, text, begin, end, k);
    var pos := index + (p - begin);
    if |minimizers| == 0 || minimizers[|minimizers| - 1].position != pos {
      minimizers' := minimizers + [Minimizer(v, pos)];
    } else {
      minimizers' := minimizers;
    }
  }

  /**
   * process4: the choice of process2, filed in the map under the FORWARD encoding of the chosen
   * k-mer (not under its canonical value) unless it is the previous window's; returns its position.
   */
  method Process4(text: seq<Byte>, begin: nat, end: nat, previousIndex: int, currentIndex: nat, k: nat,
                  m: seq<int>, rc: seq<int>, index: KmerIndex)
    returns (pos: nat, index': KmerIndex)
    requires IsCodeMap(m) && IsCodeMap(rc) && WindowFits(text, begin, end, k)
    ensures var p := CanonicalArgMin(m, rc, text, begin, WindowEnd(begin, end), k);
      pos == currentIndex + (p - begin) &&
      index' == if previousIndex == -1 || previousIndex != pos
                then Push(index, Kmer.Encode(m, text[p..p + k], Modulus64), pos)
                else index
  {
    var v, p := CanonicalScan(m, rc, text, begin, end, k);
    WindowAscii(text, begin, end, k, p);
    pos := currentIndex + (p - begin);
    if previousIndex == -1 || previousIndex != pos {
      var code := EncodeRange(m, text, p, p + k, Modulus64);
      index' := Push(index, code, pos);
    } else {
      index' := index;
    }
  }
}
