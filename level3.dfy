/**
 * parse3 (lps.c): the rules of the level-1 parser applied to the 2-bit classes of an array of
 * cores, with the new cores written over the front of the same array. lps_deepen1 passes the
 * cores from index D on as the input, and parse3 starts D further, so matching starts at the
 * absolute index 2 * D; every new core is built by init_core3 from D cores left of its span.
 */
module Level3 {
  import opened Wrappers
  import opened Core
  import opened Parser

  /** The symbols parse3 compares: the class `label & 3` of every core. */
  function Classes(cs: seq<Core>): (s: seq<int>)
    ensures |s| == |cs|
    ensures forall k :: 0 <= k < |cs| ==> s[k] == Class(cs[k])
  {
    seq(|cs|, k requires 0 <= k < |cs| => Class(cs[k]))
  }

  /** The core init_core3 builds for a span: from d cores left of its start to its last core. */
  function Level3Core(src: seq<Core>, sp: Span, d: nat): Core
    requires d <= sp.start && sp.start + 3 <= sp.end <= |src|
  {
    InitCore3(src, sp.start - d, sp.end - sp.start + d)
  }

  function Level3Cores(src: seq<Core>, sps: seq<Span>, d: nat): (cs: seq<Core>)
    requires WellFormed(sps, 2 * d, |src|)
    ensures |cs| == |sps|
  {
    seq(|sps|, k requires 0 <= k < |sps| => Level3Core(src, sps[k], d))
  }

  lemma Level3CoresSnoc(src: seq<Core>, sps: seq<Span>, sp: Span, d: nat)
    requires 2 * d <= sp.start && sp.start + 3 <= sp.end <= |src|
    requires WellFormed(sps, 2 * d, |src|) && WellFormed(sps + [sp], 2 * d, |src|)
    ensures Level3Cores(src, sps + [sp], d) == Level3Cores(src, sps, d) + [Level3Core(src, sp, d)]
  {
    var next := sps + [sp];
    forall k | 0 <= k < |sps|
      ensures Level3Cores(src, next, d)[k] == Level3Cores(src, sps, d)[k]
    {
      assert next[k] == sps[k];
    }
  }

  /** The cores parse3 finds in src: the scan from 2 * d, with d as the position LMAX skips. */
  function Level3(src: seq<Core>, d: nat): seq<Core>
  {
    SpansWellFormed(Classes(src), 2 * d, d);
    Level3Cores(src, Spans(Classes(src), 2 * d, d), d)
  }

  /** The `temp` loop of parse3: the first position from t on where the class changes. */
  method RunEndOfCores(a: array<Core>, size: int, t: int, ghost src: seq<Core>) returns (temp: int)
    requires |src| == size <= a.Length && 1 <= t <= size
    requires forall j :: t - 1 <= j < size ==> a[j] == src[j]
    ensures temp == RunEnd(Classes(src), t)
  {
    ghost var s := Classes(src);
    temp := t;
    while temp < size && CoreEq(a[temp - 1], a[temp])
      invariant t <= temp <= size
      invariant forall u :: t - 1 <= u < temp ==> s[u] == s[t - 1]
      decreases size - temp
    {
      temp := temp + 1;
    }
    RunEndIs(s, t, temp);
  }

  /** One pass of the body of parse3's loop at it1 = i: the rule that fires, if any. */
  method MatchCores(a: array<Core>, size: int, i: int, d: nat, ghost src: seq<Core>) returns (m: Option<Span>)
    requires |src| == size <= a.Length && 1 <= i && d <= i && i + 2 < size
    requires forall j :: i - 1 <= j < size ==> a[j] == src[j]
    ensures m == MatchAt(Classes(src), i, d)
  {
    ghost var s := Classes(src);
    if CoreEq(a[i], a[i + 1]) {
      return None;
    }
    if CoreEq(a[i + 1], a[i + 2]) {
      var temp := RunEndOfCores(a, size, i + 2, src);
      var middleCount := temp - i - 1;
      if temp != size {
        MatchAtRint(s, i, d, temp);
        return Some(Span(Rint, i, i + 2 + middleCount));
      }
    }
    if CoreGt(a[i], a[i + 1]) && CoreLt(a[i + 1], a[i + 2]) {
      return Some(Span(Lmin, i, i + 3));
    }
    if i == d {
      return None;
    }
    if i + 3 < size && CoreLt(a[i], a[i + 1]) && CoreGt(a[i + 1], a[i + 2])
      && CoreLeq(a[i - 1], a[i]) && CoreGeq(a[i + 2], a[i + 3])
    {
      return Some(Span(Lmax, i, i + 3));
    }
    return None;
  }

  /**
   * The front a[..count] holds the cores of the spans found so far; from count on, the
   * source cores are still in place.
   */
  ghost predicate Written(a: array<Core>, src: seq<Core>, size: int, d: nat, done: seq<Span>, count: int)
    reads a
  {
    && |src| == size <= a.Length && 0 <= count <= size
    && WellFormed(done, 2 * d, size) && |done| == count
    && a[..count] == Level3Cores(src, done, d)
    && (forall j :: count <= j < size ==> a[j] == src[j])
  }

  /**
   * What parse3's loop keeps: the scan state, the written front, and the bounds that keep the
   * write index clear of every source core still to be read.
   */
  ghost predicate Level3Scanned(a: array<Core>, src: seq<Core>, size: int, d: nat, all: seq<Span>,
                                done: seq<Span>, count: int, it1: int, it2: int)
    reads a
  {
    && 1 <= d
    && ScanState(Classes(src), d, 2 * d, all, done, it1, it2)
    && Written(a, src, size, d, done, count)
    && count + 2 * d <= it1
    && (count > 0 ==> count + 2 * d + 2 <= it2)
    && (count == 0 ==> it2 == size)
  }

  /** init_core3(&cores[count], ...); count++: the core of sp joins the written front. */
  method Emit(a: array<Core>, ghost src: seq<Core>, size: int, d: nat, ghost done: seq<Span>, count: int,
              ghost sp: Span, c: Core)
    returns (count': int)
    modifies a
    requires Written(a, src, size, d, done, count) && count < size
    requires 2 * d <= sp.start && sp.start + 3 <= sp.end <= size
    requires WellFormed(done + [sp], 2 * d, size) && c == Level3Core(src, sp, d)
    ensures count' == count + 1 && Written(a, src, size, d, done + [sp], count')
    ensures forall j :: 0 <= j < a.Length && j != count ==> a[j] == old(a[j])
  {
    a[count] := c;
    count' := count + 1;
    assert a[..count'] == old(a[..count]) + [c];
    Level3CoresSnoc(src, done, sp, d);
  }

  /** No rule fires at it1: the position moves on and nothing is written. */
  lemma Level3AdvanceNone(a: array<Core>, src: seq<Core>, size: int, d: nat, all: seq<Span>,
                          done: seq<Span>, count: int, it1: int, it2: int)
    requires it1 + 2 < size
    requires Level3Scanned(a, src, size, d, all, done, count, it1, it2)
    requires MatchAt(Classes(src), it1, d).None?
    ensures Level3Scanned(a, src, size, d, all, done, count, it1 + 1, it2)
  {
    ScanAdvance(Classes(src), d, it1, it2, done, all, 2 * d);
  }

  /**
   * init_core3 over sp, reading a: d cores left of sp.start up to its last core, none of them
   * overwritten yet.
   */
  method BuildCore(a: array<Core>, ghost src: seq<Core>, size: int, d: nat, count: int, sp: Span)
    returns (c: Core)
    requires |src| == size <= a.Length && 0 <= count
    requires forall j :: count <= j < size ==> a[j] == src[j]
    requires count + 2 * d <= sp.start && sp.start + 3 <= sp.end <= size
    ensures c == Level3Core(src, sp, d)
  {
    var cur := a[..];
    InitCore3Reads(cur, src, sp.start - d, sp.end - sp.start + d);
    c := InitCore3(cur, sp.start - d, sp.end - sp.start + d);
  }

  /** init_core3(&cores[count], ...); count++ for the span sp. */
  method EmitCore(a: array<Core>, ghost src: seq<Core>, size: int, d: nat, ghost done: seq<Span>, count: int,
                  sp: Span)
    returns (count': int)
    modifies a
    requires Written(a, src, size, d, done, count)
    requires count + 2 * d <= sp.start && sp.start + 3 <= sp.end <= size
    requires WellFormed(done + [sp], 2 * d, size)
    ensures count' == count + 1 && Written(a, src, size, d, done + [sp], count')
    ensures forall j :: 0 <= j < a.Length && j != count ==> a[j] == old(a[j])
  {
    var c := BuildCore(a, src, size, d, count, sp);
    count' := Emit(a, src, size, d, done, count, sp, c);
  }

  /** The body of parse3's loop at it1. */
  method Level3Step(a: array<Core>, size: int, d: nat, ghost src: seq<Core>, ghost all: seq<Span>,
                    ghost done: seq<Span>, count: int, it1: int, it2: int)
    returns (ghost done': seq<Span>, count': int, it1': int, it2': int)
    modifies a
    requires it1 + 2 < size
    requires Level3Scanned(a, src, size, d, all, done, count, it1, it2)
    ensures it1' == it1 + 1
    ensures Level3Scanned(a, src, size, d, all, done', count', it1', it2')
    ensures forall j :: size <= j < a.Length ==> a[j] == old(a[j])
  {
    it1' := it1 + 1;
    var m := MatchCores(a, size, it1, d, src);
    if m.None? {
      Level3AdvanceNone(a, src, size, d, all, done, count, it1, it2);
      return done, count, it1', it2;
    }
    done', count' := Level3AdvanceMatch(a, size, d, src, all, done, count, it1, it2, m.value);
    it2' := m.value.end;
  }

  /** A rule fires at it1: the pending SSEQ core, if any, then the core of the match. */
  method Level3AdvanceMatch(a: array<Core>, size: int, d: nat, ghost src: seq<Core>, ghost all: seq<Span>,
                            ghost done: seq<Span>, count: int, it1: int, it2: int, sp: Span)
    returns (ghost done': seq<Span>, count': int)
    modifies a
    requires it1 + 2 < size
    requires Level3Scanned(a, src, size, d, all, done, count, it1, it2)
    requires MatchAt(Classes(src), it1, d) == Some(sp)
    ensures Level3Scanned(a, src, size, d, all, done', count', it1 + 1, sp.end)
    ensures forall j :: size <= j < a.Length ==> a[j] == old(a[j])
  {
    ScanStateAdvance(Classes(src), d, 2 * d, all, done, it1, it2, sp);
    ghost var g := GapBefore(it1, it2);
    PrefixWellFormed(done + g, [sp], 2 * d, size);
    ghost var seen := done + g;
    count' := count;
    if it2 < it1 {
      assert g == [Span(Sseq, it2 - 1, it1 + 1)];
      count' := EmitCore(a, src, size, d, done, count, Span(Sseq, it2 - 1, it1 + 1));
      assert count' + 2 * d <= sp.start;
    } else {
      assert seen == done;
    }
    assert Written(a, src, size, d, seen, count');
    assert WellFormed(seen + [sp], 2 * d, size);
    count' := EmitCore(a, src, size, d, seen, count', sp);
    done' := seen + [sp];
  }

  /**
   * parse3(cores + d, cores + size, cores): the level-3 cores of a[..size] replace the front
   * of the array, and the returned count says how many there are.
   */
  method Parse3(a: array<Core>, size: int, d: nat) returns (count: int)
    modifies a
    requires 1 <= d && 0 <= size <= a.Length
    ensures 0 <= count <= size
    ensures a[..count] == Level3(old(a[..size]), d)
    ensures a[count..] == old(a[count..])
  {
    ghost var before := a[..];
    ghost var src := a[..size];
    ghost var done;
    count, done := Parse3Scan(a, size, d, src);
    Level3Of(a, src, size, d, count, done);
    assert src[count..] == before[count..size];
    UnchangedFrom(a[..], before, count, size);
  }

  /** The loop of parse3: every span of the scan from 2 * d on, written as a core in order. */
  method Parse3Scan(a: array<Core>, size: int, d: nat, ghost src: seq<Core>) returns (count: int, ghost done: seq<Span>)
    modifies a
    requires 1 <= d && 0 <= size <= a.Length && src == a[..size]
    ensures Written(a, src, size, d, done, count) && done == Spans(Classes(src), 2 * d, d)
    ensures forall j :: size <= j < a.Length ==> a[j] == old(a[j])
  {
    ghost var all := Spans(Classes(src), 2 * d, d);
    Level3ScanStart(a, src, size, d);
    done := [];
    count := 0;
    var it1 := 2 * d;
    var it2 := size;
    while it1 + 2 < size
      invariant Level3Scanned(a, src, size, d, all, done, count, it1, it2)
      invariant forall j :: size <= j < a.Length ==> a[j] == old(a[j])
      decreases size - it1
    {
      done, count, it1, it2 := Level3Step(a, size, d, src, all, done, count, it1, it2);
    }
    Level3ScanEnd(a, src, size, d, all, done, count, it1, it2);
  }

  /** Before the first iteration: nothing written, the scan starting at 2 * d. */
  lemma Level3ScanStart(a: array<Core>, src: seq<Core>, size: int, d: nat)
    requires 1 <= d && 0 <= size <= a.Length && src == a[..size]
    ensures Level3Scanned(a, src, size, d, Spans(Classes(src), 2 * d, d), [], 0, 2 * d, size)
  {
    SpansWellFormed(Classes(src), 2 * d, d);
  }

  /** Once it1 + 2 reaches size the rest of the scan is empty: every span has been written. */
  lemma Level3ScanEnd(a: array<Core>, src: seq<Core>, size: int, d: nat, all: seq<Span>,
                      done: seq<Span>, count: int, it1: int, it2: int)
    requires Level3Scanned(a, src, size, d, all, done, count, it1, it2) && size <= it1 + 2
    ensures done == all
  {
  }

  /** Two arrays that agree on [count, size) and from size on agree from count on. */
  lemma UnchangedFrom(now: seq<Core>, before: seq<Core>, count: int, size: int)
    requires 0 <= count <= size <= |now| == |before|
    requires now[count..size] == before[count..size]
    requires forall j :: size <= j < |now| ==> now[j] == before[j]
    ensures now[count..] == before[count..]
  {
    forall j | count <= j < |now|
      ensures now[j] == before[j]
    {
      if j < size {
        assert now[j] == now[count..size][j - count];
      }
    }
  }

  /** The written front is the level-3 parse and the rest of the array is as it was. */
  lemma Level3Of(a: array<Core>, src: seq<Core>, size: int, d: nat, count: int, done: seq<Span>)
    requires Written(a, src, size, d, done, count)
    requires done == Spans(Classes(src), 2 * d, d)
    ensures a[..count] == Level3(src, d)
    ensures a[count..size] == src[count..]
  {
  }

  /**
   * At most one core per position from 2 * d to |src| - 3, none when fewer than 2 * d + 3
   * cores come in, and on ordered input the new cores are ordered and stay inside the stretch
   * the source cores from d on cover.
   */
  lemma Level3Properties(src: seq<Core>, d: nat)
    ensures var cs := Level3(src, d);
      && |cs| <= (if |src| - 2 - 2 * d < 0 then 0 else |src| - 2 - 2 * d)
      && (|src| < 2 * d + 3 ==> cs == [])
      && (Ordered(src) ==> Ordered(cs))
      && (Ordered(src) ==> forall k :: 0 <= k < |cs| ==> src[d].start <= cs[k].start && cs[k].end <= src[|src| - 1].end)
  {
    var s := Classes(src);
    SpansWellFormed(s, 2 * d, d);
    var sps := Spans(s, 2 * d, d);
    var cs := Level3(src, d);
    if Ordered(src) {
      Level3CoresOrdered(src, sps, d);
      forall k | 0 <= k < |cs|
        ensures src[d].start <= cs[k].start && cs[k].end <= src[|src| - 1].end
      {
        assert cs[k] == Level3Core(src, sps[k], d);
        Level3CoreInside(src, sps[k], d);
      }
    }
  }

  /**
   * A level-3 core takes its start from the core d before its span and its end from the
   * span's last core; on ordered input it lies inside what the source cores from d on cover.
   */
  lemma Level3CoreInside(src: seq<Core>, sp: Span, d: nat)
    requires Ordered(src) && 2 * d <= sp.start && sp.start + 3 <= sp.end <= |src|
    ensures Level3Core(src, sp, d).start == src[sp.start - d].start && Level3Core(src, sp, d).end == src[sp.end - 1].end
    ensures src[d].start <= Level3Core(src, sp, d).start && Level3Core(src, sp, d).end <= src[|src| - 1].end
  {
  }

  /** Increasing spans over ordered cores give ordered level-3 cores. */
  lemma Level3CoresOrdered(src: seq<Core>, sps: seq<Span>, d: nat)
    requires WellFormed(sps, 2 * d, |src|) && Increasing(sps) && Ordered(src)
    ensures Ordered(Level3Cores(src, sps, d))
  {
    var cs := Level3Cores(src, sps, d);
    forall i, j | 0 <= i < j < |cs|
      ensures cs[i].start < cs[j].start && cs[i].end < cs[j].end
    {
      assert cs[i] == Level3Core(src, sps[i], d) && cs[j] == Level3Core(src, sps[j], d);
      IncreasingPairwise(sps, i, j);
      Level3CoresApart(src, sps[i], sps[j], d);
    }
  }

  /** Of two spans, the one further right gives the level-3 core further right. */
  lemma Level3CoresApart(src: seq<Core>, sp: Span, sp': Span, d: nat)
    requires Ordered(src)
    requires 2 * d <= sp.start && sp.start + 3 <= sp.end <= |src|
    requires 2 * d <= sp'.start && sp'.start + 3 <= sp'.end <= |src|
    requires sp.start < sp'.start && sp.end < sp'.end
    ensures Level3Core(src, sp, d).start < Level3Core(src, sp', d).start
    ensures Level3Core(src, sp, d).end < Level3Core(src, sp', d).end
  {
  }
}
