/**
 * lps.c: a locally parsed sequence. Level 1 parses the text (parse1, or parse2 on its reversed
 * copy); every deepening step compresses the cores with DCT passes and parses their 2-bit
 * classes again (parse3), in place.
 */
module Lcp {
  import opened Wrappers
  import opened Encoding
  import opened Core
  import opened Parser

  // ---------------------------------------------------------------------------------------
  // Level 1: parse1 and parse2

  /** The core init_core1/init_core2 builds for a span of the text. */
  function Level1Core(table: seq<Code>, str: seq<Byte>, sp: Span): Core
    requires IsTable(table)
    requires 0 <= sp.start && sp.start + 3 <= sp.end <= |str|
  {
    InitCore(table, str, sp.start, sp.end - sp.start, sp.start, sp.end)
  }

  function Level1Cores(table: seq<Code>, str: seq<Byte>, sps: seq<Span>): (cs: seq<Core>)
    requires IsTable(table) && WellFormed(sps, 0, |str|)
    ensures |cs| == |sps|
  {
    seq(|sps|, k requires 0 <= k < |sps| => Level1Core(table, str, sps[k]))
  }

  /** The cores parse1 (forward table) or parse2 (reverse-complement table) finds in str. */
  function Level1(table: seq<Code>, str: seq<Byte>): seq<Core>
    requires IsTable(table)
  {
    SpansWellFormed(Encode(table, str), 0, 0);
    Level1Cores(table, str, Spans(Encode(table, str), 0, 0))
  }

  /** One pass of the body of parse1's loop at it1 = i: the rule that fires, if any. */
  method MatchCodes(table: seq<Code>, str: seq<Byte>, i: int) returns (m: Option<Span>)
    requires IsTable(table) && 0 <= i && i + 2 < |str|
    ensures m == MatchAt(Encode(table, str), i, 0)
  {
    ghost var s := Encode(table, str);
    assert s[i] == table[str[i]] && s[i + 1] == table[str[i + 1]] && s[i + 2] == table[str[i + 2]];
    if table[str[i]] == table[str[i + 1]] {
      return None;
    }
    if table[str[i + 1]] == table[str[i + 2]] {
      var temp := RunEndOfCodes(table, str, i + 2);
      var middleCount := temp - i - 1;
      if temp != |str| {
        MatchAtRint(s, i, 0, temp);
        return Some(Span(Rint, i, i + 2 + middleCount));
      }
    }
    if table[str[i]] > table[str[i + 1]] && table[str[i + 1]] < table[str[i + 2]] {
      return Some(Span(Lmin, i, i + 3));
    }
    if i == 0 {
      return None;
    }
    assert s[i - 1] == table[str[i - 1]];
    assert i + 3 < |str| ==> s[i + 3] == table[str[i + 3]];
    if i + 3 < |str| && table[str[i]] < table[str[i + 1]] && table[str[i + 1]] > table[str[i + 2]]
      && table[str[i - 1]] <= table[str[i]] && table[str[i + 2]] >= table[str[i + 3]]
    {
      return Some(Span(Lmax, i, i + 3));
    }
    return None;
  }

  /** The scan of equal neighbours that measures a RINT run: the first position from t on
   * where the code changes, or the end of the text. */
  method RunEndOfCodes(table: seq<Code>, str: seq<Byte>, t: int) returns (temp: int)
    requires IsTable(table) && 1 <= t <= |str|
    ensures temp == RunEnd(Encode(table, str), t)
  {
    ghost var s := Encode(table, str);
    temp := t;
    while temp < |str| && table[str[temp - 1]] == table[str[temp]]
      invariant t <= temp <= |str|
      invariant forall u :: t - 1 <= u < temp ==> s[u] == s[t - 1]
      decreases |str| - temp
    {
      temp := temp + 1;
    }
    RunEndIs(s, t, temp);
  }

  /**
   * parse1 with the table as a parameter: the scan with the cursor it1 and the end it2 of the
   * last core, emitting an SSEQ core before a new core whenever it2 < it1.
   */
  method ParseLevel1(table: seq<Code>, str: seq<Byte>) returns (cores: seq<Core>)
    requires IsTable(table)
    ensures cores == Level1(table, str)
  {
    ghost var s := Encode(table, str);
    ghost var all := Spans(s, 0, 0);
    SpansWellFormed(s, 0, 0);
    ghost var done: seq<Span> := [];
    cores := [];
    var it1 := 0;
    var it2 := |str|;
    while it1 + 2 < |str|
      invariant 0 <= it1
      invariant Level1Scanned(table, str, all, done, cores, it1, it2)
      decreases |str| - it1
    {
      done, cores, it2 := Level1Step(table, str, all, done, cores, it1, it2);
      it1 := it1 + 1;
    }
    assert all == done;
    Level1Of(table, str, cores, done);
  }

  /**
   * What the loop of parse1 keeps: the spans behind it1 and the rest of the scan make up all
   * spans, and the cores written so far are those of the spans behind.
   */
  ghost predicate Level1Scanned(table: seq<Code>, str: seq<Byte>, all: seq<Span>, done: seq<Span>,
                                cores: seq<Core>, it1: int, it2: int)
    requires IsTable(table)
  {
    ScanState(Encode(table, str), 0, 0, all, done, it1, it2) && CoresState(table, str, done, cores)
  }

  ghost predicate CoresState(table: seq<Code>, str: seq<Byte>, done: seq<Span>, cores: seq<Core>)
    requires IsTable(table)
  {
    && WellFormed(done, 0, |str|)
    && |cores| == |done|
    && (forall k :: 0 <= k < |done| ==> cores[k] == Level1Core(table, str, done[k]))
  }

  /** The body of parse1's loop at it1. */
  method Level1Step(table: seq<Code>, str: seq<Byte>, ghost all: seq<Span>, ghost done: seq<Span>,
                    cores: seq<Core>, it1: int, it2: int)
    returns (ghost done': seq<Span>, cores': seq<Core>, it2': int)
    requires IsTable(table) && it1 + 2 < |str|
    requires Level1Scanned(table, str, all, done, cores, it1, it2)
    ensures Level1Scanned(table, str, all, done', cores', it1 + 1, it2')
  {
    var m := MatchCodes(table, str, it1);
    if m.None? {
      Level1AdvanceNone(table, str, all, done, cores, it1, it2);
      return done, cores, it2;
    }
    Level1MatchBounds(table, str, all, done, cores, it1, it2, m.value);
    var gapCores, core := MatchCores(table, str, it1, it2, m.value);
    Level1AdvanceMatch(table, str, all, done, cores, it1, it2, m.value, gapCores, core);
    cores' := cores + gapCores + [core];
    done' := done + GapBefore(it1, it2) + [m.value];
    it2' := m.value.end;
  }

  /**
   * The cores parse1 writes when a rule fires at it1: the SSEQ core over the gap since the
   * last core, if there is one, and the core of the match.
   */
  method MatchCores(table: seq<Code>, str: seq<Byte>, it1: int, it2: int, m: Span) returns (gapCores: seq<Core>, core: Core)
    requires IsTable(table) && m.start == it1 && 0 <= it1 && it1 + 3 <= m.end <= |str|
    requires it2 < it1 ==> 1 <= it2
    ensures WellFormed(GapBefore(it1, it2), 0, |str|)
    ensures gapCores == Level1Cores(table, str, GapBefore(it1, it2))
    ensures core == Level1Core(table, str, m)
  {
    gapCores := [];
    if it2 < it1 {
      gapCores := [InitCore(table, str, it2 - 1, it1 - it2 + 2, it2 - 1, it1 + 1)];
    }
    core := InitCore(table, str, it1, m.end - it1, it1, m.end);
    GapCores(table, str, it1, it2, gapCores);
  }

  /** A match found by the scan lies inside the text, and a gap before it starts after 0. */
  lemma Level1MatchBounds(table: seq<Code>, str: seq<Byte>, all: seq<Span>, done: seq<Span>,
                          cores: seq<Core>, it1: int, it2: int, m: Span)
    requires IsTable(table) && it1 + 2 < |str|
    requires Level1Scanned(table, str, all, done, cores, it1, it2)
    requires MatchAt(Encode(table, str), it1, 0) == Some(m)
    ensures m.start == it1 && 0 <= it1 && it1 + 3 <= m.end <= |str|
    ensures it2 < it1 ==> 1 <= it2
  {
    MatchAtShape(Encode(table, str), it1, 0);
  }

  lemma Level1AdvanceNone(table: seq<Code>, str: seq<Byte>, all: seq<Span>, done: seq<Span>,
                          cores: seq<Core>, it1: int, it2: int)
    requires IsTable(table) && it1 + 2 < |str|
    requires Level1Scanned(table, str, all, done, cores, it1, it2)
    requires MatchAt(Encode(table, str), it1, 0).None?
    ensures Level1Scanned(table, str, all, done, cores, it1 + 1, it2)
  {
    ScanAdvance(Encode(table, str), 0, it1, it2, done, all, 0);
  }

  lemma Level1AdvanceMatch(table: seq<Code>, str: seq<Byte>, all: seq<Span>, done: seq<Span>,
                           cores: seq<Core>, it1: int, it2: int, m: Span, gapCores: seq<Core>, core: Core)
    requires IsTable(table) && it1 + 2 < |str|
    requires Level1Scanned(table, str, all, done, cores, it1, it2)
    requires MatchAt(Encode(table, str), it1, 0) == Some(m)
    requires m.start == it1 && it1 + 3 <= m.end <= |str|
    requires WellFormed(GapBefore(it1, it2), 0, |str|) && gapCores == Level1Cores(table, str, GapBefore(it1, it2))
    requires core == Level1Core(table, str, m)
    ensures Level1Scanned(table, str, all, done + GapBefore(it1, it2) + [m], cores + gapCores + [core], it1 + 1, m.end)
  {
    ScanStateAdvance(Encode(table, str), 0, 0, all, done, it1, it2, m);
    Level1Append(table, str, cores, done, GapBefore(it1, it2), m, gapCores, core);
  }

  /** The SSEQ core written before a match is the core of the SSEQ span of the scan. */
  lemma GapCores(table: seq<Code>, str: seq<Byte>, it1: int, it2: int, gapCores: seq<Core>)
    requires IsTable(table) && it1 + 1 <= |str|
    requires it2 < it1 ==> 1 <= it2 && gapCores == [InitCore(table, str, it2 - 1, it1 - it2 + 2, it2 - 1, it1 + 1)]
    requires it1 <= it2 ==> gapCores == []
    ensures WellFormed(GapBefore(it1, it2), 0, |str|)
    ensures gapCores == Level1Cores(table, str, GapBefore(it1, it2))
  {
    if it2 < it1 {
      assert Level1Cores(table, str, GapBefore(it1, it2))[0] == gapCores[0];
    }
  }

  /** The cores of the spans seen, extended by those of a gap span (if any) and a match. */
  lemma Level1Append(table: seq<Code>, str: seq<Byte>, cores: seq<Core>, done: seq<Span>,
                     gap: seq<Span>, m: Span, gapCores: seq<Core>, core: Core)
    requires IsTable(table) && WellFormed(done, 0, |str|) && WellFormed(gap, 0, |str|)
    requires 0 <= m.start && m.start + 3 <= m.end <= |str|
    requires |cores| == |done| && |gapCores| == |gap|
    requires forall k :: 0 <= k < |done| ==> cores[k] == Level1Core(table, str, done[k])
    requires gapCores == Level1Cores(table, str, gap)
    requires core == Level1Core(table, str, m)
    ensures WellFormed(done + gap + [m], 0, |str|)
    ensures var next := cores + gapCores + [core];
      |next| == |done + gap + [m]| &&
      forall k :: 0 <= k < |next| ==> next[k] == Level1Core(table, str, (done + gap + [m])[k])
  {
    var all := done + gap + [m];
    forall k | 0 <= k < |all|
      ensures all[k] == if k < |done| then done[k] else if k < |done| + |gap| then gap[k - |done|] else m
    {
    }
  }

  /** Cores that match the spans of the whole scan one by one are the level-1 cores. */
  lemma Level1Of(table: seq<Code>, str: seq<Byte>, cores: seq<Core>, sps: seq<Span>)
    requires IsTable(table) && sps == Spans(Encode(table, str), 0, 0)
    requires WellFormed(sps, 0, |str|) && |cores| == |sps|
    requires forall k :: 0 <= k < |sps| ==> cores[k] == Level1Core(table, str, sps[k])
    ensures cores == Level1(table, str)
  {
  }

  method Parse1(enc: Alphabet, str: seq<Byte>) returns (cores: seq<Core>)
    requires ValidAlphabet(enc)
    ensures cores == Level1(enc.fwd, str)
  {
    cores := ParseLevel1(enc.fwd, str);
  }

  method Parse2(enc: Alphabet, str: seq<Byte>) returns (cores: seq<Core>)
    requires ValidAlphabet(enc)
    ensures cores == Level1(enc.rc, str)
  {
    cores := ParseLevel1(enc.rc, str);
  }

  /**
   * Level-1 cores: none for fewer than three symbols, at most |str| - 2 of them, each covering
   * at least three bytes of str, with strictly increasing starts and ends, and with the code
   * of its last byte as its class.
   */
  lemma Level1Properties(table: seq<Code>, str: seq<Byte>)
    requires IsTable(table)
    ensures var cs := Level1(table, str);
      && (|str| < 3 ==> cs == [])
      && |cs| <= (if |str| < 2 then 0 else |str| - 2)
      && (forall k :: 0 <= k < |cs| ==> cs[k].start + 3 <= cs[k].end <= |str|)
      && (forall k :: 0 <= k < |cs| ==> Class(cs[k]) == table[str[cs[k].end - 1]])
      && Ordered(cs)
  {
    var s := Encode(table, str);
    SpansWellFormed(s, 0, 0);
    Level1CoresOrdered(table, str, Spans(s, 0, 0));
  }

  /** Cores built from increasing spans are ordered and lie where their spans lie. */
  lemma Level1CoresOrdered(table: seq<Code>, str: seq<Byte>, sps: seq<Span>)
    requires IsTable(table) && WellFormed(sps, 0, |str|) && Increasing(sps)
    ensures var cs := Level1Cores(table, str, sps);
      && (forall k :: 0 <= k < |cs| ==> cs[k].start == sps[k].start && cs[k].end == sps[k].end)
      && (forall k :: 0 <= k < |cs| ==> Class(cs[k]) == table[str[cs[k].end - 1]])
      && Ordered(cs)
  {
    var cs := Level1Cores(table, str, sps);
    forall k | 0 <= k < |cs|
      ensures cs[k].start == sps[k].start && cs[k].end == sps[k].end
      ensures Class(cs[k]) == table[str[cs[k].end - 1]]
    {
      assert cs[k] == Level1Core(table, str, sps[k]);
    }
    forall i, j | 0 <= i < j < |cs|
      ensures cs[i].start < cs[j].start && cs[i].end < cs[j].end
    {
      IncreasingPairwise(sps, i, j);
    }
  }

  // ---------------------------------------------------------------------------------------
  // reverse

  /**
   * reverse with its unsigned indices: for an empty text `right = len - 1` wraps around to
   * SIZE_MAX, so the first swap reads far outside the text; the read is modelled as a failure.
   */
  method ReverseAsWritten(str: seq<Byte>) returns (r: Option<seq<Byte>>)
    requires |str| < 0x8000_0000
    ensures r == if |str| == 0 then None else Some(Reversed(str))
  {
    var rev := new Byte[|str|];
    var left := 0;
    var right := (|str| - 1) % 0x1_0000_0000_0000_0000;
    while left < right
      invariant |str| == 0 ==> left == 0 && right == 0xFFFF_FFFF_FFFF_FFFF
      invariant |str| > 0 ==> 0 <= left <= right + 1 && right + left == |str| - 1
      invariant |str| > 0 ==> forall k :: 0 <= k < left || right < k < |str| ==> rev[k] == str[|str| - 1 - k]
      decreases right - left
    {
      if right >= |str| {
        return None;
      }
      rev[left] := str[right];
      rev[right] := str[left];
      left := left + 1;
      right := right - 1;
    }
    if left == right {
      rev[left] := str[left];
    }
    assert forall k :: 0 <= k < |str| ==> rev[k] == str[|str| - 1 - k];
    assert rev[..] == Reversed(str);
    return Some(rev[..]);
  }

  /** reverse, with the empty text handled: rev[k] == str[len - 1 - k]. */
  method Reverse(str: seq<Byte>) returns (rev: seq<Byte>)
    ensures rev == Reversed(str)
  {
    if |str| == 0 {
      return [];
    }
    var buf := new Byte[|str|];
    var left := 0;
    var right := |str| - 1;
    while left < right
      invariant 0 <= left <= right + 1 && right + left == |str| - 1
      invariant forall k :: 0 <= k < left || right < k < |str| ==> buf[k] == str[|str| - 1 - k]
      decreases right - left
    {
      buf[left] := str[right];
      buf[right] := str[left];
      left := left + 1;
      right := right - 1;
    }
    if left == right {
      buf[left] := str[left];
    }
    rev := buf[..];
  }
}
