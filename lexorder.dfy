/**
 * The order in which the sketch routines of experiment/sketches compare k-mers and s-mers:
 * byte by byte, each byte read as a (signed) `char`, OR-ed with 0x20 and promoted to int,
 * the first differing position deciding.
 */
module LexOrder {
  import opened Encoding

  /** b | 0x20 on the eight bits of b. */
  function Or20(b: Byte): (r: int)
    ensures 0 <= r < 256
  {
    if b % 64 / 32 == 1 then b else b + 32
  }

  /**
   * The int value of `c | 0x20` for the char c with byte b, where char is signed: a byte at
   * or above 128 is the negative value b - 256, and OR-ing bit 5 leaves its sign bits alone.
   */
  function Fold(b: Byte): (f: int)
    ensures b < 128 ==> f == Or20(b)
    ensures 128 <= b ==> f == Or20(b) - 256 && f < 0
  {
    Or20(b) - (if b >= 128 then 256 else 0)
  }

  /** Or20 keeps the two top bits and the five low bits of b and sets bit 5. */
  lemma Or20Fields(b: Byte)
    ensures Or20(b) == 64 * (b / 64) + 32 + b % 32
    ensures 0 <= b / 64 < 4 && (b >= 128 <==> b / 64 >= 2)
  {
    assert b == 64 * (b / 64) + 32 * (b % 64 / 32) + b % 32;
  }

  /** Bytes that differ only in bit 5 (upper and lower case of a letter) fold to one value. */
  lemma FoldIgnoresBit5(b: Byte, b': Byte)
    requires b / 64 == b' / 64 && b % 32 == b' % 32
    ensures Fold(b) == Fold(b')
  {
    Or20Fields(b);
    Or20Fields(b');
  }

  /** Any other two bytes fold to different values. */
  lemma FoldDistinguishes(b: Byte, b': Byte)
    requires Fold(b) == Fold(b')
    ensures b / 64 == b' / 64 && b % 32 == b' % 32
  {
    Or20Fields(b);
    Or20Fields(b');
  }

  /** 'A' and 'a' are equal under the fold, but a byte at or above 128 precedes every ASCII byte. */
  lemma FoldExamples()
    ensures Fold(Ch('A')) == Fold(Ch('a')) == Ch('a')
    ensures Fold(Ch('T')) == Fold(Ch('t'))
    ensures Fold(200) < Fold(0)
  {
  }

  /** The folded bytes of text[i .. i + k). */
  function Folded(text: seq<Byte>, i: nat, k: nat): (f: seq<int>)
    requires i + k <= |text|
    ensures |f| == k
    ensures forall t :: 0 <= t < k ==> f[t] == Fold(text[i + t])
  {
    seq(k, t requires 0 <= t < k => Fold(text[i + t]))
  }

  /** a is smaller than b at their first difference. */
  predicate LexLess(a: seq<int>, b: seq<int>)
    decreases |a|
  {
    |a| > 0 && |b| > 0 && (a[0] < b[0] || (a[0] == b[0] && LexLess(a[1..], b[1..])))
  }

  lemma {:induction false} LexLessIrreflexive(a: seq<int>)
    ensures !LexLess(a, a)
    decreases |a|
  {
    if |a| > 0 {
      LexLessIrreflexive(a[1..]);
    }
  }

  lemma {:induction false} LexLessAsymmetric(a: seq<int>, b: seq<int>)
    requires LexLess(a, b)
    ensures !LexLess(b, a)
    decreases |a|
  {
    if a[0] == b[0] {
      LexLessAsymmetric(a[1..], b[1..]);
    }
  }

  lemma {:induction false} LexLessTransitive(a: seq<int>, b: seq<int>, c: seq<int>)
    requires LexLess(a, b) && LexLess(b, c)
    ensures LexLess(a, c)
    decreases |a|
  {
    if a[0] == b[0] && b[0] == c[0] {
      LexLessTransitive(a[1..], b[1..], c[1..]);
    }
  }

  /** Two different sequences of the same length are ordered one way or the other. */
  lemma {:induction false} LexLessTotal(a: seq<int>, b: seq<int>)
    requires |a| == |b| && a != b
    ensures LexLess(a, b) || LexLess(b, a)
    decreases |a|
  {
    if a[0] == b[0] {
      assert a == [a[0]] + a[1..] && b == [b[0]] + b[1..];
      LexLessTotal(a[1..], b[1..]);
    }
  }

  /** With a[..t] == b[..t] and t the first difference (or the end), only position t decides. */
  lemma {:induction false} LexLessAt(a: seq<int>, b: seq<int>, t: nat)
    requires |a| == |b| && t <= |a| && a[..t] == b[..t]
    requires t < |a| ==> a[t] != b[t]
    ensures LexLess(a, b) <==> t < |a| && a[t] < b[t]
    decreases t
  {
    if t == 0 {
    } else {
      assert a[0] == a[..t][0] && b[0] == b[..t][0];
      assert a[1..][..t - 1] == a[..t][1..] && b[1..][..t - 1] == b[..t][1..];
      LexLessAt(a[1..], b[1..], t - 1);
    }
  }

  /**
   * The comparison loop of process / process3 (minimizer.cpp) and of process / process3
   * (syncmer.cpp): advance while the folded bytes agree, then the k-mer at i precedes the one
   * at j iff the scan stopped before k at a smaller byte.
   */
  method Precedes(text: seq<Byte>, i: nat, j: nat, k: nat) returns (less: bool)
    requires i + k <= |text| && j + k <= |text|
    ensures less == LexLess(Folded(text, i, k), Folded(text, j, k))
  {
    ghost var a, b := Folded(text, i, k), Folded(text, j, k);
    var t := 0;
    while t < k && Fold(text[i + t]) == Fold(text[j + t])
      invariant 0 <= t <= k
      invariant a[..t] == b[..t]
    {
      assert a[..t + 1] == a[..t] + [a[t]] && b[..t + 1] == b[..t] + [b[t]];
      t := t + 1;
    }
    less := t != k && Fold(text[i + t]) < Fold(text[j + t]);
    LexLessAt(a, b, t);
  }

  /**
   * p holds the leftmost minimum, under LexLess on the folded k-mers, among the k-mers
   * starting in [b, hi): no k-mer there is smaller, and every one before p is larger.
   */
  ghost predicate IsLeftmostMin(text: seq<Byte>, b: nat, hi: nat, k: nat, p: nat)
    requires b < hi && hi - 1 + k <= |text|
  {
    && b <= p < hi
    && (forall j :: b <= j < hi ==> !LexLess(Folded(text, j, k), Folded(text, p, k)))
    && (forall j :: b <= j < p ==> LexLess(Folded(text, p, k), Folded(text, j, k)))
  }

  /** A window of one k-mer has that k-mer as its leftmost minimum. */
  lemma LeftmostMinSingle(text: seq<Byte>, b: nat, k: nat)
    requires b + k <= |text|
    ensures IsLeftmostMin(text, b, b + 1, k, b)
  {
    LexLessIrreflexive(Folded(text, b, k));
  }

  /**
   * Growing the window by the k-mer at hi: it becomes the leftmost minimum exactly when it
   * is strictly smaller than the old one; otherwise the old one stays.
   */
  lemma LeftmostMinExtend(text: seq<Byte>, b: nat, hi: nat, k: nat, p: nat)
    requires b < hi && hi + k <= |text| && IsLeftmostMin(text, b, hi, k, p)
    ensures LexLess(Folded(text, hi, k), Folded(text, p, k)) ==> IsLeftmostMin(text, b, hi + 1, k, hi)
    ensures !LexLess(Folded(text, hi, k), Folded(text, p, k)) ==> IsLeftmostMin(text, b, hi + 1, k, p)
  {
    var kp, kh := Folded(text, p, k), Folded(text, hi, k);
    if LexLess(kh, kp) {
      forall j | b <= j < hi + 1
        ensures !LexLess(Folded(text, j, k), kh)
        ensures j < hi ==> LexLess(kh, Folded(text, j, k))
      {
        var kj := Folded(text, j, k);
        if j == hi {
          LexLessIrreflexive(kh);
        } else {
          assert !LexLess(kj, kp);
          if LexLess(kj, kh) {
            LexLessTransitive(kj, kh, kp);
          }
          if kj == kp {
          } else {
            LexLessTotal(kj, kp);
            LexLessTransitive(kh, kp, kj);
          }
        }
      }
    }
  }

  /** The leftmost minimum of the k-mers starting in [b, hi), found from the left. */
  ghost function LeftmostMin(text: seq<Byte>, b: nat, hi: nat, k: nat): (p: nat)
    requires b < hi && hi - 1 + k <= |text|
    ensures b <= p < hi
    decreases hi
  {
    if hi == b + 1 then b
    else
      var q := LeftmostMin(text, b, hi - 1, k);
      if LexLess(Folded(text, hi - 1, k), Folded(text, q, k)) then hi - 1 else q
  }

  /** LeftmostMin finds the leftmost minimum. */
  lemma {:induction false} LeftmostMinIsLeftmostMin(text: seq<Byte>, b: nat, hi: nat, k: nat)
    requires b < hi && hi - 1 + k <= |text|
    ensures IsLeftmostMin(text, b, hi, k, LeftmostMin(text, b, hi, k))
    decreases hi
  {
    if hi == b + 1 {
      LeftmostMinSingle(text, b, k);
    } else {
      LeftmostMinIsLeftmostMin(text, b, hi - 1, k);
      LeftmostMinExtend(text, b, hi - 1, k, LeftmostMin(text, b, hi - 1, k));
    }
  }

  /** There is only one leftmost minimum. */
  lemma LeftmostMinUnique(text: seq<Byte>, b: nat, hi: nat, k: nat, p: nat, q: nat)
    requires b < hi && hi - 1 + k <= |text|
    requires IsLeftmostMin(text, b, hi, k, p) && IsLeftmostMin(text, b, hi, k, q)
    ensures p == q
  {
    var kp, kq := Folded(text, p, k), Folded(text, q, k);
    assert p < q ==> LexLess(kq, kp);
    assert q < p ==> LexLess(kp, kq);
  }


  /** Any leftmost minimum is the one LeftmostMin finds. */
  lemma LeftmostMinOf(text: seq<Byte>, b: nat, hi: nat, k: nat, p: nat)
    requires b < hi && hi - 1 + k <= |text| && IsLeftmostMin(text, b, hi, k, p)
    ensures p == LeftmostMin(text, b, hi, k)
  {
    LeftmostMinIsLeftmostMin(text, b, hi, k);
    LeftmostMinUnique(text, b, hi, k, p, LeftmostMin(text, b, hi, k));
  }

  /**
   * Sliding the window [i - 1, i - 1 + w) one step right moves its leftmost minimum right by
   * at most w, and never left.
   */
  lemma SlidingWindow(text: seq<Byte>, i: nat, w: nat, k: nat, p: nat, q: nat)
    requires 1 <= i && 1 <= w && i + w - 1 + k <= |text|
    requires IsLeftmostMin(text, i - 1, i - 1 + w, k, p)
    requires IsLeftmostMin(text, i, i + w, k, q)
    ensures p <= q <= p + w
  {
    var kp, kq := Folded(text, p, k), Folded(text, q, k);
    assert q < p ==> LexLess(kp, kq);
    assert i <= p ==> !LexLess(kp, kq);
  }

  /** SlidingWindow for the minima LeftmostMin finds in two consecutive windows. */
  lemma SlidingLeftmostMin(text: seq<Byte>, i: nat, w: nat, k: nat)
    requires 1 <= i && 1 <= w && i + w - 1 + k <= |text|
    ensures LeftmostMin(text, i - 1, i - 1 + w, k) <= LeftmostMin(text, i, i + w, k) <= LeftmostMin(text, i - 1, i - 1 + w, k) + w
  {
    LeftmostMinIsLeftmostMin(text, i - 1, i - 1 + w, k);
    LeftmostMinIsLeftmostMin(text, i, i + w, k);
    SlidingWindow(text, i, w, k, LeftmostMin(text, i - 1, i - 1 + w, k), LeftmostMin(text, i, i + w, k));
  }

  /** Widening the window to the right never moves its leftmost minimum left. */
  lemma {:induction false} LeftmostMinMonotone(text: seq<Byte>, b: nat, lo: nat, hi: nat, k: nat)
    requires b < lo <= hi && hi - 1 + k <= |text|
    ensures LeftmostMin(text, b, lo, k) <= LeftmostMin(text, b, hi, k)
    decreases hi
  {
    if lo < hi {
      LeftmostMinMonotone(text, b, lo, hi - 1, k);
    }
  }
}
