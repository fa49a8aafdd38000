/**
 * `struct lps` (lps.c): the cores of one level together with that level and their count, the
 * constructor init_lps, the deepening steps lcp_dct / lps_deepen1 / lps_deepen, and the
 * comparisons lps_eq / lps_neq.
 *
 * core_compress is not part of this model: it is a parameter that, given the left and the
 * right core, yields the new right core. DCT_ITERATION_COUNT is the constant `dct` of an lps,
 * at least 1; D is the same constant where parse3 is concerned.
 */
module LpsStruct {
  import opened Encoding
  import opened Core
  import opened Lcp
  import opened Level3

  // ---------------------------------------------------------------------------------------
  // The DCT passes and one deepening step, on values

  /**
   * Pass p of lcp_dct: for i from |s| - 2 down to p, core i + 1 becomes compress(core i, core
   * i + 1). Going right to left, the left argument is always a core the pass has not rewritten.
   */
  function DctPass(s: seq<Core>, p: nat, compress: (Core, Core) -> Core): (r: seq<Core>)
    ensures |r| == |s|
  {
    seq(|s|, k requires 0 <= k < |s| => if k <= p then s[k] else compress(s[k - 1], s[k]))
  }

  /** Passes 0, 1, ..., n - 1. */
  function DctPasses(s: seq<Core>, compress: (Core, Core) -> Core, n: nat): (r: seq<Core>)
    ensures |r| == |s|
  {
    if n == 0 then s else DctPass(DctPasses(s, compress, n - 1), n - 1, compress)
  }

  /**
   * Only cores p + 1 .. |s| - 1 are a right argument in pass p, so after n passes the first
   * core is the one that came in, and core k has been rewritten by passes 0 .. min(k, n) - 1.
   */
  lemma {:induction false} DctPassesKeepPrefix(s: seq<Core>, compress: (Core, Core) -> Core, n: nat, k: nat)
    requires k < |s|
    ensures DctPasses(s, compress, n)[k] == DctPasses(s, compress, if k < n then k else n)[k]
    ensures DctPasses(s, compress, n)[0] == s[0]
  {
    if n > 0 {
      DctPassesKeepPrefix(s, compress, n - 1, k);
      DctPassesKeepPrefix(s, compress, n - 1, 0);
    }
  }

  /** A compression that keeps the interval of its right argument. */
  ghost predicate PreservesPositions(compress: (Core, Core) -> Core) {
    forall l, r :: compress(l, r).start == r.start && compress(l, r).end == r.end
  }

  predicate SamePositions(a: seq<Core>, b: seq<Core>) {
    |a| == |b| && forall k :: 0 <= k < |a| ==> a[k].start == b[k].start && a[k].end == b[k].end
  }

  /** The pass after n passes is pass number n + 1. */
  lemma DctPassesNext(s: seq<Core>, compress: (Core, Core) -> Core, n: nat, cur: seq<Core>, next: seq<Core>)
    requires cur == DctPasses(s, compress, n) && next == DctPass(cur, n, compress)
    ensures next == DctPasses(s, compress, n + 1)
  {
  }

  /** With such a compression the passes change labels only. */
  lemma {:induction false} DctPassesKeepPositions(s: seq<Core>, compress: (Core, Core) -> Core, n: nat)
    requires PreservesPositions(compress)
    ensures SamePositions(DctPasses(s, compress, n), s)
  {
    if n > 0 {
      DctPassesKeepPositions(s, compress, n - 1);
    }
  }

  /** lps_deepen1 on the cores: nothing when lcp_dct refuses, else parse3 after the passes. */
  function DeepenStep(cs: seq<Core>, compress: (Core, Core) -> Core, d: nat): seq<Core>
  {
    if |cs| < d + 2 then cs else Level3.Level3(DctPasses(cs, compress, d), d)
  }

  /** n successful or refused calls of lps_deepen1. */
  function DeepenTimes(cs: seq<Core>, compress: (Core, Core) -> Core, d: nat, n: nat): seq<Core>
  {
    if n == 0 then cs else DeepenStep(DeepenTimes(cs, compress, d, n - 1), compress, d)
  }

  /** Each state of the run is the deepening step of the one before. */
  ghost predicate IsRun(trace: seq<seq<Core>>, compress: (Core, Core) -> Core, d: nat) {
    forall i :: 0 < i < |trace| ==> trace[i] == DeepenStep(trace[i - 1], compress, d)
  }

  /** The last state of a run is its first deepened once per step. */
  lemma {:induction false} RunIsDeepenTimes(trace: seq<seq<Core>>, compress: (Core, Core) -> Core, d: nat)
    requires |trace| > 0 && IsRun(trace, compress, d)
    ensures trace[|trace| - 1] == DeepenTimes(trace[0], compress, d, |trace| - 1)
  {
    if |trace| > 1 {
      var init := trace[..|trace| - 1];
      assert IsRun(init, compress, d);
      RunIsDeepenTimes(init, compress, d);
    }
  }

  /** A run grows by the deepening step of its last state. */
  lemma RunExtend(trace: seq<seq<Core>>, next: seq<Core>, compress: (Core, Core) -> Core, d: nat)
    requires |trace| > 0 && IsRun(trace, compress, d)
    requires next == DeepenStep(trace[|trace| - 1], compress, d)
    ensures IsRun(trace + [next], compress, d)
  {
    var run := trace + [next];
    forall i | 0 < i < |run|
      ensures run[i] == DeepenStep(run[i - 1], compress, d)
    {
      assert run[i - 1] == trace[i - 1];
      if i < |trace| {
        assert run[i] == trace[i];
      }
    }
  }

  /**
   * A deepening step never adds cores and changes nothing when lcp_dct refuses. When it runs,
   * at most size - 2 - 2 * d cores remain, and none when there are fewer than 2 * d + 2. It
   * keeps starts and ends strictly increasing when the compression keeps positions.
   */
  lemma DeepenStepProperties(cs: seq<Core>, compress: (Core, Core) -> Core, d: nat)
    ensures |DeepenStep(cs, compress, d)| <= |cs|
    ensures |cs| < d + 2 ==> DeepenStep(cs, compress, d) == cs
    ensures |cs| >= d + 2 ==> |DeepenStep(cs, compress, d)| <= if |cs| < 2 * d + 2 then 0 else |cs| - 2 - 2 * d
    ensures PreservesPositions(compress) && Ordered(cs) ==> Ordered(DeepenStep(cs, compress, d))
  {
    if |cs| >= d + 2 {
      var src := DctPasses(cs, compress, d);
      Level3Properties(src, d);
      if PreservesPositions(compress) && Ordered(cs) {
        DctPassesKeepPositions(cs, compress, d);
        assert Ordered(src);
      }
    }
  }

  /** However many levels are gained, the cores r of the last level never grow in number. */
  lemma {:induction false} DeepenTimesShrinks(cs: seq<Core>, compress: (Core, Core) -> Core, d: nat, n: nat,
                                              r: seq<Core>)
    requires r == DeepenTimes(cs, compress, d, n)
    ensures |r| <= |cs|
  {
    if n > 0 {
      var prev := DeepenTimes(cs, compress, d, n - 1);
      DeepenTimesShrinks(cs, compress, d, n - 1, prev);
      DeepenStepProperties(prev, compress, d);
    }
  }

  /** However many levels are gained, starts and ends of the cores r stay strictly increasing. */
  lemma {:induction false} DeepenTimesOrdered(cs: seq<Core>, compress: (Core, Core) -> Core, d: nat, n: nat,
                                              r: seq<Core>)
    requires PreservesPositions(compress) && Ordered(cs)
    requires r == DeepenTimes(cs, compress, d, n)
    ensures Ordered(r)
  {
    if n > 0 {
      var prev := DeepenTimes(cs, compress, d, n - 1);
      DeepenTimesOrdered(cs, compress, d, n - 1, prev);
      DeepenStepProperties(prev, compress, d);
    }
  }

  // ---------------------------------------------------------------------------------------
  // struct lps

  class Lps {
    var level: int
    var size: int
    var cores: array<Core>
    /** DCT_ITERATION_COUNT, and D for parse3. */
    const dct: nat

    ghost predicate Valid()
      reads this
    {
      0 <= size <= cores.Length && 1 <= dct && 1 <= level
    }

    /** The cores of the current level. */
    ghost function Contents(): seq<Core>
      reads this, cores
      requires Valid()
    {
      cores[..size]
    }

    /**
     * init_lps: level 1 and the cores of parse1 over the text, or of parse2 over its reversed
     * copy when rev_comp is set.
     */
    constructor (str: seq<Byte>, revComp: bool, enc: Alphabet, d: nat)
      requires ValidAlphabet(enc) && 1 <= d
      ensures Valid() && fresh(cores) && level == 1 && dct == d
      ensures !revComp ==> Contents() == Level1(enc.fwd, str)
      ensures revComp ==> Contents() == Level1(enc.rc, Reversed(str))
    {
      var cs;
      if !revComp {
        cs := Parse1(enc, str);
      } else {
        var rev := Reverse(str);
        cs := Parse2(enc, rev);
      }
      level := 1;
      dct := d;
      cores := new Core[|cs|](k requires 0 <= k < |cs| => cs[k]);
      size := |cs|;
      new;
      assert cores[..size] == cs;
    }

    /**
     * lcp_dct: -1 and nothing changed when there are fewer than dct + 2 cores, else 0 after
     * the dct passes over the first `size` cores.
     */
    method Dct(compress: (Core, Core) -> Core) returns (r: int)
      modifies cores
      requires Valid()
      ensures Valid()
      ensures old(size) < dct + 2 ==> r == -1 && cores[..] == old(cores[..])
      ensures old(size) >= dct + 2 ==> r == 0 && Contents() == DctPasses(old(Contents()), compress, dct)
      ensures cores[size..] == old(cores[size..])
    {
      if size < dct + 2 {
        return -1;
      }
      CompressPasses(compress);
      return 0;
    }

    /** The outer loop of lcp_dct: dct passes, the p-th leaving the first p + 1 cores alone. */
    method CompressPasses(compress: (Core, Core) -> Core)
      modifies cores
      requires Valid() && dct + 2 <= size
      ensures cores[..size] == DctPasses(old(cores[..size]), compress, dct)
      ensures cores[size..] == old(cores[size..])
    {
      ghost var orig := cores[..size];
      var p := 0;
      while p < dct
        invariant 0 <= p <= dct
        invariant cores[..size] == DctPasses(orig, compress, p)
        invariant cores[size..] == old(cores[size..])
        decreases dct - p
      {
        ghost var cur := cores[..size];
        CompressPass(p, compress);
        DctPassesNext(orig, compress, p, cur, cores[..size]);
        p := p + 1;
      }
    }

    /** One pass of lcp_dct: it_left from size - 2 down to p, each right core rewritten. */
    method CompressPass(p: nat, compress: (Core, Core) -> Core)
      modifies cores
      requires Valid() && p + 2 <= size
      ensures cores[..size] == DctPass(old(cores[..size]), p, compress)
      ensures cores[size..] == old(cores[size..])
    {
      ghost var before := cores[..size];
      var left := size - 2;
      while p <= left
        invariant p - 1 <= left <= size - 2
        invariant forall k :: 0 <= k <= left + 1 ==> cores[k] == before[k]
        invariant forall k :: left + 1 < k < size ==> cores[k] == compress(before[k - 1], before[k])
        invariant cores[size..] == old(cores[size..])
        decreases left - p
      {
        cores[left + 1] := compress(cores[left], cores[left + 1]);
        left := left - 1;
      }
    }

    /**
     * lps_deepen1: 0 and nothing changed when lcp_dct refuses; else 1, one level up even if
     * parse3 finds nothing, and the cores of DeepenStep, never more than before.
     */
    method Deepen1(compress: (Core, Core) -> Core) returns (r: int)
      modifies this, cores
      requires Valid()
      ensures Valid() && cores == old(cores)
      ensures old(size) < dct + 2 ==>
        r == 0 && level == old(level) && size == old(size) && cores[..] == old(cores[..])
      ensures old(size) >= dct + 2 ==> r == 1 && level == old(level) + 1 && size <= old(size)
      ensures Contents() == DeepenStep(old(Contents()), compress, dct)
    {
      var ok := Dct(compress);
      if ok < 0 {
        return 0;
      }
      var newSize := Parse3(cores, size, dct);
      size := newSize;
      level := level + 1;
      return 1;
    }

    /**
     * lps_deepen: 0 and nothing changed when lcp_level <= level; else 1, with one DeepenStep
     * per level gained, level never past lcp_level, and short of it only when the last
     * lps_deepen1 refused for want of cores.
     */
    method Deepen(lcpLevel: int, compress: (Core, Core) -> Core) returns (r: int)
      modifies this, cores
      requires Valid()
      ensures Valid() && cores == old(cores)
      ensures lcpLevel <= old(level) ==>
        r == 0 && level == old(level) && size == old(size) && cores[..] == old(cores[..])
      ensures lcpLevel > old(level) ==> r == 1 && old(level) <= level <= lcpLevel
      ensures lcpLevel > old(level) ==>
        Contents() == DeepenTimes(old(Contents()), compress, dct, level - old(level))
      ensures lcpLevel > old(level) && level < lcpLevel ==> size < dct + 2
    {
      if lcpLevel <= level {
        return 0;
      }
      ghost var trace := DeepenLoop(lcpLevel, compress);
      RunIsDeepenTimes(trace, compress, dct);
      return 1;
    }

    /**
     * The loop of lps_deepen: lps_deepen1 until lcp_level is reached or it refuses; `trace`
     * holds the cores before and after each level gained.
     */
    method DeepenLoop(lcpLevel: int, compress: (Core, Core) -> Core) returns (ghost trace: seq<seq<Core>>)
      modifies this, cores
      requires Valid() && level < lcpLevel
      ensures Valid() && cores == old(cores)
      ensures old(level) <= level <= lcpLevel
      ensures level < lcpLevel ==> size < dct + 2
      ensures IsRun(trace, compress, dct) && |trace| == level - old(level) + 1
      ensures trace[0] == old(Contents()) && trace[|trace| - 1] == Contents()
    {
      trace := [Contents()];
      while level < lcpLevel
        invariant Valid() && cores == old(cores)
        invariant old(level) <= level <= lcpLevel
        invariant IsRun(trace, compress, dct) && |trace| == level - old(level) + 1
        invariant trace[0] == old(Contents()) && trace[|trace| - 1] == Contents()
        decreases lcpLevel - level
      {
        var ok := Deepen1(compress);
        if ok == 0 {
          break;
        }
        RunExtend(trace, Contents(), compress, dct);
        trace := trace + [Contents()];
      }
    }
  }

  // ---------------------------------------------------------------------------------------
  // lps_eq and lps_neq

  /** Same number of cores, and pairwise the same 2-bit class. */
  predicate SameClasses(a: seq<Core>, b: seq<Core>) {
    |a| == |b| && forall k :: 0 <= k < |a| ==> CoreEq(a[k], b[k])
  }

  /** SameClasses compares exactly the class sequences, so it is an equivalence. */
  lemma SameClassesIsClassEquality(a: seq<Core>, b: seq<Core>, c: seq<Core>)
    ensures SameClasses(a, b) <==> Classes(a) == Classes(b)
    ensures SameClasses(a, a)
    ensures SameClasses(a, b) ==> SameClasses(b, a)
    ensures SameClasses(a, b) && SameClasses(b, c) ==> SameClasses(a, c)
  {
    if Classes(a) == Classes(b) {
      forall k | 0 <= k < |a|
        ensures CoreEq(a[k], b[k])
      {
        assert Classes(a)[k] == Classes(b)[k];
      }
    }
  }

  /** lps_eq: 1 on a size mismatch or at the first pair of classes that differ, else 0. */
  method LpsEq(lhs: Lps, rhs: Lps) returns (r: int)
    requires lhs.Valid() && rhs.Valid()
    ensures r == 0 || r == 1
    ensures r == 0 <==> SameClasses(lhs.Contents(), rhs.Contents())
  {
    if lhs.size != rhs.size {
      return 1;
    }
    var i := 0;
    while i < lhs.size
      invariant 0 <= i <= lhs.size
      invariant forall k :: 0 <= k < i ==> CoreEq(lhs.cores[k], rhs.cores[k])
      decreases lhs.size - i
    {
      if CoreNeq(lhs.cores[i], rhs.cores[i]) {
        return 1;
      }
      i := i + 1;
    }
    return 0;
  }

  /** lps_neq: the same scan with the results swapped. */
  method LpsNeq(lhs: Lps, rhs: Lps) returns (r: int)
    requires lhs.Valid() && rhs.Valid()
    ensures r == 0 || r == 1
    ensures r == 1 <==> SameClasses(lhs.Contents(), rhs.Contents())
  {
    if lhs.size != rhs.size {
      return 0;
    }
    var i := 0;
    while i < lhs.size
      invariant 0 <= i <= lhs.size
      invariant forall k :: 0 <= k < i ==> CoreEq(lhs.cores[k], rhs.cores[k])
      decreases lhs.size - i
    {
      if CoreNeq(lhs.cores[i], rhs.cores[i]) {
        return 0;
      }
      i := i + 1;
    }
    return 1;
  }
}
