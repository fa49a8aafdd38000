/**
 * The scan shared by parse1, parse2 and parse3 of lps.c, over an abstract symbol sequence:
 * the alphabet codes of the bytes at level 1, the label classes (`label & 3`) of the cores
 * at deeper levels. A scan yields spans [start, end) of symbol positions, each tagged with
 * the rule that produced it; the callers turn every span into one core.
 *
 * The rules, tried at every position i in this order:
 *   - skip i if s[i] == s[i+1];
 *   - RINT: x y^m z with x != y, m >= 2, z != y; not produced if the run of y reaches the end;
 *   - LMIN: s[i] > s[i+1] < s[i+2];
 *   - skip i if it is the first position (`begin`);
 *   - LMAX: s[i-1] <= s[i] < s[i+1] > s[i+2] >= s[i+3].
 * Whenever a new span starts strictly after the previous one ended, an SSEQ span covering the
 * gap (one symbol of overlap on each side) is produced first.
 */
module Parser {
  import opened Wrappers

  datatype Kind = Sseq | Rint | Lmin | Lmax

  datatype Span = Span(kind: Kind, start: int, end: int)

  /**
   * Where the `temp` loop stops when started at t: the first position r >= t with
   * s[r-1] != s[r], or the end of the input. Every symbol in s[t-1 .. r) is s[t-1].
   */
  function RunEnd(s: seq<int>, t: int): (r: int)
    requires 1 <= t <= |s|
    ensures t <= r <= |s|
    ensures forall u :: t - 1 <= u < r ==> s[u] == s[t - 1]
    ensures r < |s| ==> s[r - 1] != s[r]
    decreases |s| - t
  {
    if t < |s| && s[t - 1] == s[t] then RunEnd(s, t + 1) else t
  }

  /** RunEnd(s, t) is the r that ends the stretch of symbols equal to s[t-1]. */
  lemma {:induction false} RunEndIs(s: seq<int>, t: int, r: int)
    requires 1 <= t <= r <= |s|
    requires forall u :: t - 1 <= u < r ==> s[u] == s[t - 1]
    requires r == |s| || s[r - 1] != s[r]
    ensures RunEnd(s, t) == r
    decreases r - t
  {
    if t < r {
      RunEndIs(s, t + 1, r);
    }
  }

  /** The rule that fires at position i, in the order of the loop body, if any. */
  function MatchAt(s: seq<int>, i: int, origin: int): Option<Span>
    requires 0 <= origin <= i && i + 2 < |s|
  {
    if s[i] == s[i + 1] then None
    else if s[i + 1] == s[i + 2] && RunEnd(s, i + 2) != |s| then Some(Span(Rint, i, RunEnd(s, i + 2) + 1))
    else if s[i] > s[i + 1] && s[i + 1] < s[i + 2] then Some(Span(Lmin, i, i + 3))
    else if i == origin then None
    else if i + 3 < |s| && s[i] < s[i + 1] && s[i + 1] > s[i + 2] && s[i - 1] <= s[i] && s[i + 2] >= s[i + 3] then
      Some(Span(Lmax, i, i + 3))
    else None
  }

  /**
   * The loop of parse1/parse3 from position i on; `it2` is the end of the last span
   * produced, or the input length while there is none.
   */
  function Scan(s: seq<int>, i: int, origin: int, it2: int): seq<Span>
    requires 0 <= origin <= i
    decreases |s| - i
  {
    if i + 2 >= |s| then []
    else
      match MatchAt(s, i, origin)
      case None => Scan(s, i + 1, origin, it2)
      case Some(m) =>
        (if it2 < i then [Span(Sseq, it2 - 1, i + 1)] else []) + [m] + Scan(s, i + 1, origin, m.end)
  }

  /** One step of the scan: what position i adds, and where the scan goes on. */
  lemma ScanStep(s: seq<int>, i: int, origin: int, it2: int)
    requires 0 <= origin <= i && i + 2 < |s|
    ensures MatchAt(s, i, origin).None? ==> Scan(s, i, origin, it2) == Scan(s, i + 1, origin, it2)
    ensures MatchAt(s, i, origin).Some? ==>
      var m := MatchAt(s, i, origin).value;
      Scan(s, i, origin, it2) == (if it2 < i then [Span(Sseq, it2 - 1, i + 1)] else []) + [m] + Scan(s, i + 1, origin, m.end)
  {
  }

  /** The SSEQ span, if any, that the scan puts before a match at i when the last one ended at it2. */
  function GapBefore(i: int, it2: int): seq<Span> {
    if it2 < i then [Span(Sseq, it2 - 1, i + 1)] else []
  }

  /**
   * The loop of a parser as bookkeeping: with the spans seen so far and the rest of the scan
   * from i on making up all of them, one more position moves what it produces from the rest
   * over to the spans seen.
   */
  lemma ScanAdvance(s: seq<int>, origin: int, i: int, it2: int, done: seq<Span>, all: seq<Span>, lo: int)
    requires 0 <= origin <= i && i + 2 < |s|
    requires all == done + Scan(s, i, origin, it2) && WellFormed(all, lo, |s|)
    ensures MatchAt(s, i, origin).None? ==> all == done + Scan(s, i + 1, origin, it2)
    ensures MatchAt(s, i, origin).Some? ==>
      var m := MatchAt(s, i, origin).value;
      var seen := done + GapBefore(i, it2) + [m];
      && m.start == i && i + 3 <= m.end <= |s|
      && all == seen + Scan(s, i + 1, origin, m.end)
      && WellFormed(seen, lo, |s|)
  {
    ScanStep(s, i, origin, it2);
    match MatchAt(s, i, origin)
    case None =>
    case Some(m) =>
      ScanAdvanceMatch(s, origin, i, it2, done, all, lo, m);
  }

  lemma ScanAdvanceMatch(s: seq<int>, origin: int, i: int, it2: int, done: seq<Span>, all: seq<Span>, lo: int,
                         m: Span)
    requires 0 <= origin <= i && i + 2 < |s|
    requires all == done + Scan(s, i, origin, it2) && WellFormed(all, lo, |s|)
    requires MatchAt(s, i, origin) == Some(m)
    ensures m.start == i && i + 3 <= m.end <= |s|
    ensures all == done + GapBefore(i, it2) + [m] + Scan(s, i + 1, origin, m.end)
    ensures WellFormed(done + GapBefore(i, it2) + [m], lo, |s|)
  {
    MatchAtShape(s, i, origin);
    ScanStep(s, i, origin, it2);
    Regroup(all, done, Scan(s, i, origin, it2), GapBefore(i, it2), m, Scan(s, i + 1, origin, m.end), lo, |s|);
  }

  lemma Regroup(all: seq<Span>, done: seq<Span>, x: seq<Span>, g: seq<Span>, m: Span, rest: seq<Span>,
                lo: int, n: int)
    requires all == done + x && x == g + [m] + rest && WellFormed(all, lo, n)
    ensures all == done + g + [m] + rest
    ensures WellFormed(done + g + [m], lo, n)
  {
    assert done + x == done + g + [m] + rest;
    PrefixWellFormed(done + g + [m], rest, lo, n);
  }

  lemma PrefixWellFormed(a: seq<Span>, b: seq<Span>, lo: int, n: int)
    requires WellFormed(a + b, lo, n)
    ensures WellFormed(a, lo, n)
  {
    forall k | 0 <= k < |a|
      ensures (a + b)[k] == a[k]
    {
    }
  }

  /**
   * The scan of a parser loop at it1, with `origin` the position the LMAX rule skips and `lo`
   * the lowest position a span may start at: the spans behind it1 and the rest of the scan
   * make up all spans.
   */
  ghost predicate ScanState(s: seq<int>, origin: int, lo: int, all: seq<Span>, done: seq<Span>, it1: int, it2: int) {
    && 0 <= origin <= it1
    && (it2 == |s| || 3 <= it2 <= |s|)
    && all == done + Scan(s, it1, origin, it2)
    && WellFormed(all, lo, |s|)
    && WellFormed(done, lo, |s|)
  }

  /** A match at it1: the spans it adds move from the rest of the scan to the spans seen. */
  lemma ScanStateAdvance(s: seq<int>, origin: int, lo: int, all: seq<Span>, done: seq<Span>, it1: int, it2: int,
                         m: Span)
    requires it1 + 2 < |s| && ScanState(s, origin, lo, all, done, it1, it2) && MatchAt(s, it1, origin) == Some(m)
    ensures m.start == it1 && it1 + 3 <= m.end <= |s|
    ensures ScanState(s, origin, lo, all, done + GapBefore(it1, it2) + [m], it1 + 1, m.end)
    ensures WellFormed(GapBefore(it1, it2), lo, |s|)
  {
    ScanAdvance(s, origin, it1, it2, done, all, lo);
    PrefixWellFormed(done + GapBefore(it1, it2), [m], lo, |s|);
    if it2 < it1 {
      assert (done + GapBefore(it1, it2))[|done|] == GapBefore(it1, it2)[0];
    }
  }

  /** All spans of s, scanning from `from` with `origin` as the first position. */
  function Spans(s: seq<int>, from: int, origin: int): seq<Span>
    requires 0 <= origin <= from
  {
    Scan(s, from, origin, |s|)
  }

  // ---------------------------------------------------------------------------------------
  // The rules, stated on their own

  /** x y^m z at [i, e): m = e - i - 2 >= 2 copies of y, with x != y and z != y. */
  predicate IsRint(s: seq<int>, i: int, e: int) {
    && 0 <= i && i + 4 <= e <= |s|
    && s[i] != s[i + 1]
    && (forall u :: i + 1 <= u < e - 1 ==> s[u] == s[i + 1])
    && s[e - 1] != s[i + 1]
  }

  predicate IsLmin(s: seq<int>, i: int) {
    0 <= i && i + 3 <= |s| && s[i] > s[i + 1] && s[i + 1] < s[i + 2]
  }

  predicate IsLmax(s: seq<int>, i: int) {
    1 <= i && i + 4 <= |s| && s[i - 1] <= s[i] && s[i] < s[i + 1] && s[i + 1] > s[i + 2] && s[i + 2] >= s[i + 3]
  }

  /** A RINT pattern starting at i has exactly one end. */
  lemma RintEndUnique(s: seq<int>, i: int, e: int, e': int)
    requires IsRint(s, i, e) && IsRint(s, i, e')
    ensures e == e'
  {
    if e < e' {
      assert false;
    } else if e' < e {
      assert false;
    }
  }

  /** The three patterns exclude one another, so the order of the tests only matters for skips. */
  lemma RulesAreExclusive(s: seq<int>, i: int, e: int)
    ensures !(IsRint(s, i, e) && IsLmin(s, i))
    ensures !(IsRint(s, i, e) && IsLmax(s, i))
    ensures !(IsLmin(s, i) && IsLmax(s, i))
  {
    if IsRint(s, i, e) {
      assert s[i + 2] == s[i + 1];
    }
  }

  /**
   * MatchAt produces exactly the patterns: a RINT span iff the RINT pattern holds, an LMIN
   * span iff the LMIN pattern holds, and an LMAX span iff the LMAX pattern holds away from
   * the first position.
   */
  lemma {:induction false} MatchAtRules(s: seq<int>, i: int, origin: int)
    requires 0 <= origin <= i && i + 2 < |s|
    ensures forall e :: MatchAt(s, i, origin) == Some(Span(Rint, i, e)) <==> IsRint(s, i, e)
    ensures MatchAt(s, i, origin) == Some(Span(Lmin, i, i + 3)) <==> IsLmin(s, i)
    ensures MatchAt(s, i, origin) == Some(Span(Lmax, i, i + 3)) <==> IsLmax(s, i) && i != origin
    ensures MatchAt(s, i, origin).None? <==>
      (forall e :: !IsRint(s, i, e)) && !IsLmin(s, i) && !(IsLmax(s, i) && i != origin)
    ensures MatchAt(s, i, origin).Some? ==>
      var m := MatchAt(s, i, origin).value;
      m.start == i && m.kind != Sseq && i + 3 <= m.end <= |s| && s[i] != s[i + 1]
  {
    if s[i] != s[i + 1] && s[i + 1] == s[i + 2] {
      var r := RunEnd(s, i + 2);
      assert r > i + 2;
      if r != |s| {
        assert IsRint(s, i, r + 1);
        forall e | IsRint(s, i, e)
          ensures e == r + 1
        {
          RintEndUnique(s, i, e, r + 1);
        }
      } else {
        forall e
          ensures !IsRint(s, i, e)
        {
        }
      }
    } else if s[i] != s[i + 1] {
      forall e
        ensures !IsRint(s, i, e)
      {
      }
    }
  }

  /** The RINT rule fires at i with the run that ends at r. */
  lemma MatchAtRint(s: seq<int>, i: int, origin: int, r: int)
    requires 0 <= origin <= i && i + 2 < |s|
    requires s[i] != s[i + 1] && s[i + 1] == s[i + 2]
    requires r == RunEnd(s, i + 2) && r != |s|
    ensures MatchAt(s, i, origin) == Some(Span(Rint, i, r + 1))
  {
  }

  /** A span MatchAt produces starts at i and covers at least three symbols of s. */
  lemma MatchAtShape(s: seq<int>, i: int, origin: int)
    requires 0 <= origin <= i && i + 2 < |s|
    ensures MatchAt(s, i, origin).Some? ==>
      var m := MatchAt(s, i, origin).value;
      m.start == i && m.kind != Sseq && i + 3 <= m.end <= |s|
  {
  }

  /** No span starts at a symbol equal to its right neighbour. */
  lemma NoSpanStartsOnRepeat(s: seq<int>, i: int, origin: int)
    requires 0 <= origin <= i && i + 2 < |s|
    requires s[i] == s[i + 1]
    ensures MatchAt(s, i, origin) == None
  {
  }

  /** With x y y ... y running to the end of the input, position i yields nothing. */
  lemma RintNeedsClosingSymbol(s: seq<int>, i: int, origin: int)
    requires 0 <= origin <= i && i + 2 < |s|
    requires s[i] != s[i + 1]
    requires forall u :: i + 1 <= u < |s| ==> s[u] == s[i + 1]
    ensures MatchAt(s, i, origin) == None
  {
    MatchAtRules(s, i, origin);
    assert s[i + 1] == s[i + 2];
    forall e
      ensures !IsRint(s, i, e)
    {
    }
  }

  /** Positions strictly inside the repeated run of a span cannot start another span. */
  lemma NoMatchInsideRun(s: seq<int>, i: int, origin: int, j: int)
    requires 0 <= origin <= i && i + 2 < |s|
    requires MatchAt(s, i, origin).Some?
    requires i < j < MatchAt(s, i, origin).value.end - 2
    ensures s[j] == s[j + 1]
  {
    var r := RunEnd(s, i + 2);
    assert i + 2 <= j + 1 < r;
  }

  // ---------------------------------------------------------------------------------------
  // The matches alone, and how SSEQ spans are placed between them

  /** The spans produced by the rules, from position i on, without SSEQ spans. */
  function Matches(s: seq<int>, i: int, origin: int): seq<Span>
    requires 0 <= origin <= i
    decreases |s| - i
  {
    if i + 2 >= |s| then []
    else
      match MatchAt(s, i, origin)
      case None => Matches(s, i + 1, origin)
      case Some(m) => [m] + Matches(s, i + 1, origin)
  }

  /** The SSEQ spans inserted into a sequence of matches; `prevEnd` ends the previous one. */
  function Gapped(ms: seq<Span>, prevEnd: int): seq<Span> {
    if ms == [] then []
    else
      (if prevEnd < ms[0].start then [Span(Sseq, prevEnd - 1, ms[0].start + 1)] else [])
      + [ms[0]] + Gapped(ms[1..], ms[0].end)
  }

  /** The non-SSEQ spans of a sequence, in order. */
  function NonGaps(sps: seq<Span>): seq<Span> {
    if sps == [] then []
    else (if sps[0].kind == Sseq then [] else [sps[0]]) + NonGaps(sps[1..])
  }

  predicate Increasing(sps: seq<Span>) {
    forall k :: 0 <= k < |sps| - 1 ==> sps[k].start < sps[k + 1].start && sps[k].end < sps[k + 1].end
  }

  predicate WellFormed(sps: seq<Span>, lo: int, n: int) {
    forall k :: 0 <= k < |sps| ==> lo <= sps[k].start && sps[k].start + 3 <= sps[k].end <= n
  }

  predicate NoGaps(sps: seq<Span>) {
    forall k :: 0 <= k < |sps| ==> sps[k].kind != Sseq
  }

  /** The end of the span before index k, or p before the first one. */
  function Before(sps: seq<Span>, k: int, p: int): int
    requires 0 <= k < |sps|
  {
    if k == 0 then p else sps[k - 1].end
  }

  /**
   * An SSEQ span stands exactly where a span starts after the previous one ended: it is
   * followed by a non-SSEQ span, not preceded by one, and covers the gap with one symbol of
   * overlap on each side; a non-SSEQ span not preceded by an SSEQ span starts no later than
   * the previous one ended.
   */
  predicate GapsPlaced(sps: seq<Span>, p: int) {
    forall k :: 0 <= k < |sps| ==> GapPlaced(sps, k, p)
  }

  predicate GapPlaced(sps: seq<Span>, k: int, p: int)
    requires 0 <= k < |sps|
  {
    if sps[k].kind == Sseq then
      && k + 1 < |sps| && sps[k + 1].kind != Sseq && (k > 0 ==> sps[k - 1].kind != Sseq)
      && Before(sps, k, p) < sps[k + 1].start
      && sps[k] == Span(Sseq, Before(sps, k, p) - 1, sps[k + 1].start + 1)
    else
      (k > 0 && sps[k - 1].kind == Sseq) || Before(sps, k, p) >= sps[k].start
  }

  /** Every match is the rule's span at its own start, inside the part scanned. */
  lemma {:induction false} MatchesSound(s: seq<int>, i: int, origin: int)
    requires 0 <= origin <= i
    ensures var ms := Matches(s, i, origin);
      && (forall k :: 0 <= k < |ms| ==>
            i <= ms[k].start && ms[k].start + 2 < |s| && MatchAt(s, ms[k].start, origin) == Some(ms[k]))
      && NoGaps(ms) && WellFormed(ms, i, |s|)
    decreases |s| - i
  {
    if i + 2 < |s| {
      MatchesSound(s, i + 1, origin);
      MatchAtShape(s, i, origin);
      var rest := Matches(s, i + 1, origin);
      match MatchAt(s, i, origin)
      case None =>
        assert Matches(s, i, origin) == rest;
      case Some(m) =>
        var ms := [m] + rest;
        assert Matches(s, i, origin) == ms;
        forall k | 1 <= k < |ms|
          ensures ms[k] == rest[k - 1]
        {
        }
    }
  }

  /** Every position where a rule fires is the start of a match. */
  lemma {:induction false} MatchesComplete(s: seq<int>, i: int, origin: int)
    requires 0 <= origin <= i
    ensures var ms := Matches(s, i, origin);
      forall j :: i <= j && j + 2 < |s| && MatchAt(s, j, origin).Some? ==>
        exists k :: 0 <= k < |ms| && ms[k].start == j
    decreases |s| - i
  {
    if i + 2 < |s| {
      MatchesComplete(s, i + 1, origin);
      MatchAtShape(s, i, origin);
      var rest := Matches(s, i + 1, origin);
      match MatchAt(s, i, origin)
      case None =>
        assert Matches(s, i, origin) == rest;
        forall j | i <= j && j + 2 < |s| && MatchAt(s, j, origin).Some?
          ensures exists k :: 0 <= k < |rest| && rest[k].start == j
        {
          assert j != i;
        }
      case Some(m) =>
        var ms := [m] + rest;
        assert Matches(s, i, origin) == ms;
        forall j | i <= j && j + 2 < |s| && MatchAt(s, j, origin).Some?
          ensures exists k :: 0 <= k < |ms| && ms[k].start == j
        {
          if j == i {
            assert ms[0].start == j;
          } else {
            var k :| 0 <= k < |rest| && rest[k].start == j;
            assert ms[k + 1].start == j;
          }
        }
    }
  }

  /** Consecutive matches have increasing starts and ends. */
  lemma {:induction false} MatchesIncreasing(s: seq<int>, i: int, origin: int)
    requires 0 <= origin <= i
    ensures Increasing(Matches(s, i, origin))
    decreases |s| - i
  {
    if i + 2 < |s| {
      MatchesIncreasing(s, i + 1, origin);
      MatchesSound(s, i + 1, origin);
      MatchAtRules(s, i, origin);
      var rest := Matches(s, i + 1, origin);
      match MatchAt(s, i, origin)
      case None =>
      case Some(m) =>
        var ms := [m] + rest;
        if rest != [] {
          var n := rest[0];
          MatchAtRules(s, n.start, origin);
          if n.start < m.end - 2 {
            NoMatchInsideRun(s, i, origin, n.start);
            assert false;
          }
        }
        forall k | 0 <= k < |ms| - 1
          ensures ms[k].start < ms[k + 1].start && ms[k].end < ms[k + 1].end
        {
          if k > 0 {
            assert ms[k] == rest[k - 1] && ms[k + 1] == rest[k];
          }
        }
    }
  }

  lemma {:induction false} ScanIsGappedMatches(s: seq<int>, i: int, origin: int, it2: int)
    requires 0 <= origin <= i
    ensures Scan(s, i, origin, it2) == Gapped(Matches(s, i, origin), it2)
    decreases |s| - i
  {
    if i + 2 < |s| {
      match MatchAt(s, i, origin)
      case None =>
        ScanIsGappedMatches(s, i + 1, origin, it2);
      case Some(m) =>
        ScanIsGappedMatches(s, i + 1, origin, m.end);
        var ms := [m] + Matches(s, i + 1, origin);
        assert ms[0] == m && ms[1..] == Matches(s, i + 1, origin);
    }
  }

  lemma {:induction false} NonGapsAppend(a: seq<Span>, b: seq<Span>)
    ensures NonGaps(a + b) == NonGaps(a) + NonGaps(b)
  {
    if a != [] {
      var h := if a[0].kind == Sseq then [] else [a[0]];
      assert (a + b)[0] == a[0];
      assert (a + b)[1..] == a[1..] + b;
      assert NonGaps(a + b) == h + NonGaps(a[1..] + b);
      NonGapsAppend(a[1..], b);
      assert NonGaps(a) == h + NonGaps(a[1..]);
    } else {
      assert a + b == b;
    }
  }

  /** Dropping the SSEQ spans from the scan's output gives back the matches. */
  lemma {:induction false} NonGapsOfGapped(ms: seq<Span>, p: int)
    requires NoGaps(ms)
    ensures NonGaps(Gapped(ms, p)) == ms
  {
    if ms != [] {
      var g := if p < ms[0].start then [Span(Sseq, p - 1, ms[0].start + 1)] else [];
      NonGapsOfGapped(ms[1..], ms[0].end);
      NonGapsAppend(g + [ms[0]], Gapped(ms[1..], ms[0].end));
      NonGapsAppend(g, [ms[0]]);
      assert NonGaps([ms[0]]) == [ms[0]] by {
        assert [ms[0]][1..] == [];
      }
      if g != [] {
        assert NonGaps(g) == [] by {
          assert g[1..] == [];
        }
      }
      assert ms == [ms[0]] + ms[1..];
    }
  }

  lemma ConsMatch(m: Span, r: seq<Span>, p: int)
    requires m.kind != Sseq && p >= m.start
    requires GapsPlaced(r, m.end)
    ensures GapsPlaced([m] + r, p)
  {
    var t := [m] + r;
    forall k | 0 <= k < |t|
      ensures GapPlaced(t, k, p)
    {
      if k > 0 {
        assert GapPlaced(r, k - 1, m.end);
        assert t[k] == r[k - 1] && Before(t, k, p) == Before(r, k - 1, m.end);
        if k + 1 < |t| {
          assert t[k + 1] == r[k];
        }
        if k >= 2 {
          assert t[k - 1] == r[k - 2];
        }
      }
    }
  }

  lemma ConsGap(g: Span, m: Span, r: seq<Span>, p: int)
    requires m.kind != Sseq && p < m.start && g == Span(Sseq, p - 1, m.start + 1)
    requires GapsPlaced(r, m.end)
    ensures GapsPlaced([g] + [m] + r, p)
  {
    var t := [g] + [m] + r;
    forall k | 0 <= k < |t|
      ensures GapPlaced(t, k, p)
    {
      if k >= 2 {
        assert GapPlaced(r, k - 2, m.end);
        assert t[k] == r[k - 2] && Before(t, k, p) == Before(r, k - 2, m.end);
        if k + 1 < |t| {
          assert t[k + 1] == r[k - 1];
        }
        if k >= 3 {
          assert t[k - 1] == r[k - 3];
        }
      }
    }
  }

  lemma {:induction false} GappedPlacesGaps(ms: seq<Span>, p: int)
    requires NoGaps(ms)
    ensures GapsPlaced(Gapped(ms, p), p)
  {
    if ms != [] {
      var m := ms[0];
      var r := Gapped(ms[1..], m.end);
      GappedPlacesGaps(ms[1..], m.end);
      if p < m.start {
        ConsGap(Span(Sseq, p - 1, m.start + 1), m, r, p);
      } else {
        ConsMatch(m, r, p);
        assert Gapped(ms, p) == [m] + r;
      }
    }
  }

  /** The first span after a match ending at p: an SSEQ span from p - 1, or the next match. */
  lemma GappedHead(ms: seq<Span>, p: int)
    requires ms != []
    ensures var r := Gapped(ms, p);
      r != [] && (if p < ms[0].start then r[0] == Span(Sseq, p - 1, ms[0].start + 1) else r[0] == ms[0])
  {
  }

  /** Inserting the SSEQ spans keeps the spans well-formed and increasing. */
  lemma {:induction false} GappedWellFormed(ms: seq<Span>, p: int, lo: int, n: int)
    requires WellFormed(ms, lo, n) && Increasing(ms)
    requires ms != [] && p < ms[0].start ==> lo + 1 <= p
    ensures WellFormed(Gapped(ms, p), lo, n) && Increasing(Gapped(ms, p))
  {
    if ms != [] {
      var m := ms[0];
      TailFacts(ms, lo, n);
      var r := Gapped(ms[1..], m.end);
      GappedWellFormed(ms[1..], m.end, lo, n);
      if r != [] {
        GappedHead(ms[1..], m.end);
      }
      ConsIncreasing(m, r, lo, n);
      GappedStep(ms, p, lo, n);
    }
  }

  lemma GappedStep(ms: seq<Span>, p: int, lo: int, n: int)
    requires ms != []
    requires var t := [ms[0]] + Gapped(ms[1..], ms[0].end); WellFormed(t, lo, n) && Increasing(t)
    requires p < ms[0].start ==> lo + 1 <= p
    ensures WellFormed(Gapped(ms, p), lo, n) && Increasing(Gapped(ms, p))
  {
    GappedUnfold(ms, p);
    GapConsIncreasing(GapBefore(ms[0].start, p), [ms[0]] + Gapped(ms[1..], ms[0].end), p, lo, n);
  }

  lemma GappedUnfold(ms: seq<Span>, p: int)
    requires ms != []
    ensures Gapped(ms, p) == GapBefore(ms[0].start, p) + ([ms[0]] + Gapped(ms[1..], ms[0].end))
  {
    var g := GapBefore(ms[0].start, p);
    var r := Gapped(ms[1..], ms[0].end);
    assert g + [ms[0]] + r == g + ([ms[0]] + r);
  }

  /** Putting the SSEQ span (if any) in front of a well-formed run that starts after p. */
  lemma GapConsIncreasing(g: seq<Span>, t: seq<Span>, p: int, lo: int, n: int)
    requires t != [] && WellFormed(t, lo, n) && Increasing(t)
    requires g == GapBefore(t[0].start, p)
    requires p < t[0].start ==> lo + 1 <= p
    ensures WellFormed(g + t, lo, n) && Increasing(g + t)
  {
    if p < t[0].start {
      ConsIncreasing(Span(Sseq, p - 1, t[0].start + 1), t, lo, n);
    } else {
      assert g + t == t;
    }
  }

  lemma TailFacts(ms: seq<Span>, lo: int, n: int)
    requires ms != [] && WellFormed(ms, lo, n) && Increasing(ms)
    ensures WellFormed(ms[1..], lo, n) && Increasing(ms[1..])
    ensures lo <= ms[0].start && ms[0].start + 3 <= ms[0].end <= n
    ensures |ms| > 1 ==> ms[0].start < ms[1].start && ms[0].end < ms[1].end
  {
    var rest := ms[1..];
    forall k | 0 <= k < |rest|
      ensures rest[k] == ms[k + 1]
    {
    }
  }

  lemma ConsIncreasing(m: Span, r: seq<Span>, lo: int, n: int)
    requires lo <= m.start && m.start + 3 <= m.end <= n
    requires WellFormed(r, lo, n) && Increasing(r)
    requires r != [] ==> m.start < r[0].start && m.end < r[0].end
    ensures WellFormed([m] + r, lo, n) && Increasing([m] + r)
  {
    var t := [m] + r;
    forall k | 1 <= k < |t|
      ensures t[k] == r[k - 1]
    {
    }
  }

  lemma {:induction false} IncreasingPairwise(sps: seq<Span>, a: int, b: int)
    requires Increasing(sps) && 0 <= a < b < |sps|
    ensures sps[a].start < sps[b].start && sps[a].end < sps[b].end
    decreases b - a
  {
    if a + 1 < b {
      IncreasingPairwise(sps, a + 1, b);
    }
  }

  /** Strictly increasing starts inside [lo, hi] leave room for at most hi - lo + 1 spans. */
  lemma {:induction false} CountBound(sps: seq<Span>, lo: int, hi: int)
    requires Increasing(sps)
    requires forall k :: 0 <= k < |sps| ==> lo <= sps[k].start <= hi
    ensures |sps| <= if hi - lo + 1 < 0 then 0 else hi - lo + 1
  {
    if sps != [] {
      var rest := sps[1..];
      forall k | 0 <= k < |rest|
        ensures rest[k] == sps[k + 1] && sps[0].start < rest[k].start
      {
        IncreasingPairwise(sps, 0, k + 1);
      }
      CountBound(rest, sps[0].start + 1, hi);
    }
  }

  // ---------------------------------------------------------------------------------------
  // What the scan produces

  /** The part of SpansProperties that the parsers' loops rely on. */
  lemma SpansWellFormed(s: seq<int>, from: int, origin: int)
    requires 0 <= origin <= from
    ensures WellFormed(Spans(s, from, origin), from, |s|) && Increasing(Spans(s, from, origin))
    ensures |Spans(s, from, origin)| <= (if |s| - 2 - from < 0 then 0 else |s| - 2 - from)
  {
    SpansProperties(s, from, origin);
  }

  /**
   * The spans of s from position `from` on:
   *   - each lies inside [from, |s|) and covers at least three symbols, there are at most
   *     |s| - 2 - from of them, and starts and ends strictly increase;
   *   - the non-SSEQ spans are the rule matches in order: a RINT, LMIN or LMAX span starts
   *     at j exactly when the rule fires at j, and it is the span the rule gives;
   *   - SSEQ spans stand exactly in the gaps between consecutive matches and never first.
   */
  lemma SpansProperties(s: seq<int>, from: int, origin: int)
    requires 0 <= origin <= from
    ensures var r := Spans(s, from, origin);
      && WellFormed(r, from, |s|) && Increasing(r)
      && |r| <= (if |s| - 2 - from < 0 then 0 else |s| - 2 - from)
      && NonGaps(r) == Matches(s, from, origin)
      && (forall j :: from <= j && j + 2 < |s| ==>
            (MatchAt(s, j, origin).Some? <==> exists k :: 0 <= k < |r| && r[k].kind != Sseq && r[k].start == j))
      && (forall k :: 0 <= k < |r| && r[k].kind != Sseq ==> MatchAt(s, r[k].start, origin) == Some(r[k]))
      && GapsPlaced(r, |s|)
      && (r != [] ==> r[0].kind != Sseq)
  {
    var ms := Matches(s, from, origin);
    var r := Spans(s, from, origin);
    MatchesSound(s, from, origin);
    MatchesComplete(s, from, origin);
    MatchesIncreasing(s, from, origin);
    ScanIsGappedMatches(s, from, origin, |s|);
    GappedWellFormed(ms, |s|, from, |s|);
    GappedPlacesGaps(ms, |s|);
    NonGapsOfGapped(ms, |s|);
    CountBound(r, from, |s| - 3);
    forall k | 0 <= k < |r| && r[k].kind != Sseq
      ensures MatchAt(s, r[k].start, origin) == Some(r[k])
    {
      NonGapMember(r, k);
    }
    forall j | from <= j && j + 2 < |s|
      ensures MatchAt(s, j, origin).Some? <==> exists k :: 0 <= k < |r| && r[k].kind != Sseq && r[k].start == j
    {
      if MatchAt(s, j, origin).Some? {
        var k :| 0 <= k < |ms| && ms[k].start == j;
        var k' := NonGapIndex(r, k);
        assert r[k'].kind != Sseq && r[k'].start == j;
      }
      if exists k :: 0 <= k < |r| && r[k].kind != Sseq && r[k].start == j {
        var k :| 0 <= k < |r| && r[k].kind != Sseq && r[k].start == j;
        NonGapMember(r, k);
      }
    }
  }

  /** Every non-SSEQ span of a sequence is one of its NonGaps. */
  lemma {:induction false} NonGapMember(sps: seq<Span>, k: int)
    requires 0 <= k < |sps| && sps[k].kind != Sseq
    ensures sps[k] in NonGaps(sps)
  {
    if k > 0 {
      NonGapMember(sps[1..], k - 1);
    }
  }

  /** And every entry of NonGaps stands somewhere in the sequence. */
  lemma {:induction false} NonGapIndex(sps: seq<Span>, k: int) returns (k': int)
    requires 0 <= k < |NonGaps(sps)|
    ensures 0 <= k' < |sps| && sps[k'] == NonGaps(sps)[k] && sps[k'].kind != Sseq
  {
    if sps[0].kind == Sseq {
      k' := NonGapIndex(sps[1..], k);
      k' := k' + 1;
    } else if k == 0 {
      k' := 0;
    } else {
      k' := NonGapIndex(sps[1..], k - 1);
      k' := k' + 1;
    }
  }
}
