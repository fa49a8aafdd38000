/**
 * experiment/helper.cpp: the reverse complement of a read, and the counting rules that
 * score a sketch of a simulated read against the sketch of its ground-truth location
 * (pairwise) and against the sketch of the whole reference (global).
 *
 * A `std::map<kmer_type, std::vector<index_type>>` is its entries in ascending key order.
 * The caller-owned `stats_type` counters are a `Counts` value passed in and returned
 * updated. Counters are unbounded integers; the source's 64-bit unsigned counters agree
 * with them modulo 2^64, since every update is an addition or the one subtraction
 * `ref_indices.size() - 1`.
 */
module Helper {
  import opened Wrappers
  import opened Encoding

  /** MAX_DISTANCE_THRESHOLD: how far apart two indices of one sketch may be to match. */
  const MaxDistanceThreshold := 30
  /** MAXIMUM_FREQ_THRESHOLD: sketches this frequent in the reference are ignored. */
  const MaximumFreqThreshold := 256

  // ---------------------------------------------------------------------------------------
  // reverse_complement (helper.cpp:172-185)

  /** The complement the source applies: A and T swap, G and C swap, nothing else changes. */
  function Comp(c: Byte): Byte {
    if c == Ch('A') then Ch('T')
    else if c == Ch('T') then Ch('A')
    else if c == Ch('G') then Ch('C')
    else if c == Ch('C') then Ch('G')
    else c
  }

  /** The reverse complement: the complement of the last byte first. */
  function RevComp(s: seq<Byte>): (r: seq<Byte>)
    ensures |r| == |s|
    ensures forall i :: 0 <= i < |s| ==> r[i] == Comp(s[|s| - 1 - i])
  {
    if |s| == 0 then [] else [Comp(s[|s| - 1])] + RevComp(s[..|s| - 1])
  }

  /** Only the four upper-case DNA letters change; lower-case letters and the rest stay. */
  lemma CompFixes(c: Byte)
    ensures Comp(c) != c <==> c in {Ch('A'), Ch('C'), Ch('G'), Ch('T')}
    ensures Comp(Comp(c)) == c
  {
  }

  /** Taking the reverse complement twice gives back the original string. */
  lemma RevCompInvolution(s: seq<Byte>)
    ensures RevComp(RevComp(s)) == s
  {
    var r := RevComp(s);
    forall i | 0 <= i < |s|
      ensures RevComp(r)[i] == s[i]
    {
      CompFixes(s[i]);
    }
  }

  /** `std::reverse`: swaps the two ends inward, in place. */
  method Reverse(s: array<Byte>)
    modifies s
    ensures s[..] == Reversed(old(s[..]))
  {
    var n := s.Length;
    var i := 0;
    while i < n / 2
      invariant 0 <= i <= n / 2
      invariant forall j :: 0 <= j < i ==> s[j] == old(s[n - 1 - j]) && s[n - 1 - j] == old(s[j])
      invariant forall j :: i <= j < n - i ==> s[j] == old(s[j])
    {
      s[i], s[n - 1 - i] := s[n - 1 - i], s[i];
      i := i + 1;
    }
    forall j | n - n / 2 <= j < n
      ensures s[j] == old(s[n - 1 - j])
    {
      assert s[n - 1 - (n - 1 - j)] == old(s[n - 1 - j]);
    }
    assert forall j :: 0 <= j < n ==> s[j] == old(s[n - 1 - j]);
  }

  /** The loop of reverse_complement: every byte replaced by its complement, in place. */
  method Complement(s: array<Byte>)
    modifies s
    ensures forall j :: 0 <= j < s.Length ==> s[j] == Comp(old(s[j]))
  {
    var i := 0;
    while i < s.Length
      invariant 0 <= i <= s.Length
      invariant forall j :: 0 <= j < i ==> s[j] == Comp(old(s[j]))
      invariant forall j :: i <= j < s.Length ==> s[j] == old(s[j])
    {
      if s[i] == Ch('A') {
        s[i] := Ch('T');
      } else if s[i] == Ch('T') {
        s[i] := Ch('A');
      } else if s[i] == Ch('G') {
        s[i] := Ch('C');
      } else if s[i] == Ch('C') {
        s[i] := Ch('G');
      }
      i := i + 1;
    }
  }

  /** `std::reverse`, then the complement loop, both in place on the string. */
  method ReverseComplement(s: array<Byte>)
    modifies s
    ensures s[..] == RevComp(old(s[..]))
  {
    ghost var orig := s[..];
    Reverse(s);
    ghost var rev := s[..];
    Complement(s);
    ghost var r := RevComp(orig);
    forall j | 0 <= j < s.Length
      ensures s[..][j] == r[j]
    {
      assert rev[j] == Reversed(orig)[j];
    }
  }

  // ---------------------------------------------------------------------------------------
  // Sketch maps and counters

  /** One entry of a sketch map: a sketch and the indices at which it occurs. */
  datatype Entry = Entry(key: nat, indices: seq<nat>)

  predicate KeysAscending(m: seq<Entry>) {
    forall i, j :: 0 <= i < j < |m| ==> m[i].key < m[j].key
  }

  /** A `std::map`: its entries in strictly ascending key order. */
  type IndexMap = m: seq<Entry> | KeysAscending(m) witness []

  /** `map.find(key)`: the index list stored under key, if any. */
  function Find(m: seq<Entry>, key: nat): Option<seq<nat>> {
    if |m| == 0 then None
    else if m[0].key == key then Some(m[0].indices)
    else Find(m[1..], key)
  }

  /** Find fails exactly when no entry carries the key. */
  lemma {:induction false} FindNone(m: seq<Entry>, key: nat)
    ensures Find(m, key).None? <==> forall i :: 0 <= i < |m| ==> m[i].key != key
  {
    if |m| != 0 && m[0].key != key {
      FindNone(m[1..], key);
      assert forall i :: 1 <= i < |m| ==> m[i] == m[1..][i - 1];
    }
  }

  /** In a map, looking up the key of an entry gives that entry's list. */
  lemma {:induction false} FindEntry(m: seq<Entry>, i: nat)
    requires KeysAscending(m) && i < |m|
    ensures Find(m, m[i].key) == Some(m[i].indices)
  {
    if 0 < i {
      assert KeysAscending(m[1..]) by {
        forall a, b | 0 <= a < b < |m| - 1
          ensures m[1..][a].key < m[1..][b].key
        {
          assert m[1..][a] == m[a + 1] && m[1..][b] == m[b + 1];
        }
      }
      FindEntry(m[1..], i - 1);
    }
  }

  /** The number of indices stored in a map. */
  function Size(m: seq<Entry>): nat {
    if |m| == 0 then 0 else Size(m[..|m| - 1]) + |m[|m| - 1].indices|
  }

  /** The true-positive, false-positive, false-negative and total counters. */
  datatype Counts = Counts(tp: int, fp: int, fn: int, total: int)

  const Zero := Counts(0, 0, 0, 0)

  /** Each counter of after is the one of before raised by the one of d. */
  predicate Raised(after: Counts, before: Counts, d: Counts) {
    && after.tp == before.tp + d.tp
    && after.fp == before.fp + d.fp
    && after.fn == before.fn + d.fn
    && after.total == before.total + d.total
  }

  /** Counts that agree counter by counter are equal. */
  lemma CountsExt(a: Counts, b: Counts)
    requires a.tp == b.tp && a.fp == b.fp && a.fn == b.fn && a.total == b.total
    ensures a == b
  {
  }

  // ---------------------------------------------------------------------------------------
  // alignment_pairwise_stats (helper.cpp:188-233)

  /** The match test of the two-pointer loop: the indices differ by less than the threshold. */
  predicate Close(a: nat, b: nat) {
    (a >= b && a - b < MaxDistanceThreshold) || (a < b && b - a < MaxDistanceThreshold)
  }

  /**
   * The pairs (gt index, sim index) that the two-pointer loop matches when it starts at
   * positions i and j. The pairs are close, and strictly increasing in both positions, so
   * no index is matched twice.
   */
  function Pairs(g: seq<nat>, s: seq<nat>, i: nat, j: nat): (ps: seq<(nat, nat)>)
    requires i <= |g| && j <= |s|
    ensures |ps| <= |g| - i && |ps| <= |s| - j
    ensures forall t :: 0 <= t < |ps| ==>
      i <= ps[t].0 < |g| && j <= ps[t].1 < |s| && Close(s[ps[t].1], g[ps[t].0])
    ensures forall t, u :: 0 <= t < u < |ps| ==> ps[t].0 < ps[u].0 && ps[t].1 < ps[u].1
    decreases |g| - i + |s| - j
  {
    if i == |g| || j == |s| then []
    else if Close(s[j], g[i]) then [(i, j)] + Pairs(g, s, i + 1, j + 1)
    else if s[j] > g[i] then Pairs(g, s, i + 1, j)
    else Pairs(g, s, i, j + 1)
  }

  /** The two-pointer loop of helper.cpp:202-215; every step advances a pointer. */
  method CountMatches(g: seq<nat>, s: seq<nat>) returns (currMatch: nat)
    ensures currMatch == |Pairs(g, s, 0, 0)|
    ensures currMatch <= |g| && currMatch <= |s|
  {
    var index1, index2 := 0, 0;
    currMatch := 0;
    while index1 < |g| && index2 < |s|
      invariant index1 <= |g| && index2 <= |s|
      invariant currMatch + |Pairs(g, s, index1, index2)| == |Pairs(g, s, 0, 0)|
      decreases |g| - index1 + |s| - index2
    {
      if (s[index2] >= g[index1] && s[index2] - g[index1] < MaxDistanceThreshold) ||
         (s[index2] < g[index1] && g[index1] - s[index2] < MaxDistanceThreshold)
      {
        index1 := index1 + 1;
        index2 := index2 + 1;
        currMatch := currMatch + 1;
      } else if s[index2] > g[index1] {
        index1 := index1 + 1;
      } else {
        index2 := index2 + 1;
      }
    }
  }

  /** What one ground-truth entry adds: matches to TP, the rest of each list to FP and FN. */
  function PairwiseGtKey(e: Entry, sim: seq<Entry>): Counts {
    match Find(sim, e.key)
    case None => Counts(0, 0, |e.indices|, |e.indices|)
    case Some(s) =>
      var m := |Pairs(e.indices, s, 0, 0)|;
      Counts(m, |s| - m, |e.indices| - m, |s| - m + |e.indices|)
  }

  /** What the first loop adds over the ground-truth entries. */
  function PairwiseGt(gt: seq<Entry>, sim: seq<Entry>): Counts {
    if |gt| == 0 then Zero
    else
      var a, b := PairwiseGt(gt[..|gt| - 1], sim), PairwiseGtKey(gt[|gt| - 1], sim);
      Counts(a.tp + b.tp, a.fp + b.fp, a.fn + b.fn, a.total + b.total)
  }

  /** What one simulated entry adds in the second loop: its list to FP when gt lacks its key. */
  function PairwiseSimKey(gt: seq<Entry>, e: Entry): Counts {
    if Find(gt, e.key).None? then Counts(0, |e.indices|, 0, |e.indices|) else Zero
  }

  /** What the second loop adds over the simulated entries. */
  function PairwiseSim(gt: seq<Entry>, sim: seq<Entry>): Counts {
    if |sim| == 0 then Zero
    else
      var a, b := PairwiseSim(gt, sim[..|sim| - 1]), PairwiseSimKey(gt, sim[|sim| - 1]);
      Counts(a.tp + b.tp, a.fp + b.fp, a.fn + b.fn, a.total + b.total)
  }

  function PairwiseDelta(gt: seq<Entry>, sim: seq<Entry>): Counts {
    var a, b := PairwiseGt(gt, sim), PairwiseSim(gt, sim);
    Counts(a.tp + b.tp, a.fp + b.fp, a.fn + b.fn, a.total + b.total)
  }

  /** The body of the first loop for one ground-truth entry (helper.cpp:194-218). */
  method PairwiseKey(e: Entry, sim: seq<Entry>, c: Counts) returns (c': Counts)
    ensures Raised(c', c, PairwiseGtKey(e, sim))
  {
    c' := c;
    var id := e.key;
    var gtIndices := e.indices;
    var found := Find(sim, id);
    var currMatch := 0;
    if found.Some? {
      var simIndices := found.value;
      currMatch := CountMatches(gtIndices, simIndices);
      c' := c'.(tp := c'.tp + currMatch, fp := c'.fp + (|simIndices| - currMatch),
                total := c'.total + (|simIndices| - currMatch));
    }
    c' := c'.(fn := c'.fn + (|gtIndices| - currMatch), total := c'.total + |gtIndices|);
  }

  method PairwiseStats(gt: IndexMap, sim: IndexMap, c: Counts) returns (c': Counts)
    ensures Raised(c', c, PairwiseDelta(gt, sim))
  {
    c' := c;
    var i := 0;
    while i < |gt|
      invariant i <= |gt|
      invariant Raised(c', c, PairwiseGt(gt[..i], sim))
    {
      c' := PairwiseKey(gt[i], sim, c');
      assert gt[..i + 1][..i] == gt[..i];
      i := i + 1;
    }
    assert gt[..i] == gt;
    ghost var afterGt := c';
    i := 0;
    while i < |sim|
      invariant i <= |sim|
      invariant Raised(c', afterGt, PairwiseSim(gt, sim[..i]))
    {
      if Find(gt, sim[i].key).None? {
        c' := c'.(fp := c'.fp + |sim[i].indices|, total := c'.total + |sim[i].indices|);
      }
      assert sim[..i + 1][..i] == sim[..i];
      i := i + 1;
    }
    assert sim[..i] == sim;
  }

  /** Every index is counted exactly once: the total rises by TP + FP + FN. */
  lemma PairwiseTotal(gt: seq<Entry>, sim: seq<Entry>)
    ensures var d := PairwiseDelta(gt, sim); d.total == d.tp + d.fp + d.fn
  {
    PairwiseGtTotal(gt, sim);
    PairwiseSimTotal(gt, sim);
  }

  lemma {:induction false} PairwiseGtTotal(gt: seq<Entry>, sim: seq<Entry>)
    ensures var d := PairwiseGt(gt, sim); d.total == d.tp + d.fp + d.fn
  {
    if |gt| != 0 {
      PairwiseGtTotal(gt[..|gt| - 1], sim);
    }
  }

  lemma {:induction false} PairwiseSimTotal(gt: seq<Entry>, sim: seq<Entry>)
    ensures var d := PairwiseSim(gt, sim); d.total == d.tp + d.fp + d.fn
  {
    if |sim| != 0 {
      PairwiseSimTotal(gt, sim[..|sim| - 1]);
    }
  }

  /** When no sketch is shared, every simulated index is FP and every ground-truth index FN. */
  lemma PairwiseDisjoint(gt: seq<Entry>, sim: seq<Entry>)
    requires forall i, j :: 0 <= i < |gt| && 0 <= j < |sim| ==> gt[i].key != sim[j].key
    ensures var d := PairwiseDelta(gt, sim);
      d.tp == 0 && d.fp == Size(sim) && d.fn == Size(gt) && d.total == Size(sim) + Size(gt)
  {
    DisjointGt(gt, sim);
    DisjointSim(gt, sim);
  }

  lemma {:induction false} DisjointGt(gt: seq<Entry>, sim: seq<Entry>)
    requires forall i, j :: 0 <= i < |gt| && 0 <= j < |sim| ==> gt[i].key != sim[j].key
    ensures PairwiseGt(gt, sim) == Counts(0, 0, Size(gt), Size(gt))
  {
    if |gt| != 0 {
      DisjointGt(gt[..|gt| - 1], sim);
      FindNone(sim, gt[|gt| - 1].key);
    }
  }

  lemma {:induction false} DisjointSim(gt: seq<Entry>, sim: seq<Entry>)
    requires forall i, j :: 0 <= i < |gt| && 0 <= j < |sim| ==> gt[i].key != sim[j].key
    ensures PairwiseSim(gt, sim) == Counts(0, Size(sim), 0, Size(sim))
  {
    if |sim| != 0 {
      DisjointSim(gt, sim[..|sim| - 1]);
      FindNone(gt, sim[|sim| - 1].key);
    }
  }

  /** A list matched against itself pairs every index with itself. */
  lemma {:induction false} PairsSelf(g: seq<nat>, i: nat)
    requires i <= |g|
    ensures |Pairs(g, g, i, i)| == |g| - i
    decreases |g| - i
  {
    if i < |g| {
      assert Close(g[i], g[i]);
      PairsSelf(g, i + 1);
    }
  }

  /** A sketch compared with itself has no false positive and no false negative. */
  lemma PairwiseIdentical(m: IndexMap)
    ensures var d := PairwiseDelta(m, m); d.tp == Size(m) && d.fp == 0 && d.fn == 0 && d.total == Size(m)
  {
    forall i | 0 <= i < |m|
      ensures Find(m, m[i].key) == Some(m[i].indices)
    {
      FindEntry(m, i);
    }
    IdenticalGt(m, m);
    IdenticalSim(m, m);
  }

  lemma {:induction false} IdenticalGt(p: seq<Entry>, m: IndexMap)
    requires forall i :: 0 <= i < |p| ==> Find(m, p[i].key) == Some(p[i].indices)
    ensures PairwiseGt(p, m) == Counts(Size(p), 0, 0, Size(p))
  {
    if |p| != 0 {
      IdenticalGt(p[..|p| - 1], m);
      PairsSelf(p[|p| - 1].indices, 0);
    }
  }

  lemma {:induction false} IdenticalSim(p: seq<Entry>, m: IndexMap)
    requires forall i :: 0 <= i < |p| ==> Find(m, p[i].key).Some?
    ensures PairwiseSim(m, p) == Zero
  {
    if |p| != 0 {
      IdenticalSim(p[..|p| - 1], m);
    }
  }

  // ---------------------------------------------------------------------------------------
  // alignment_global_stats (helper.cpp:234-319)

  /** The inclusive window of the global counts: the indices are at most the threshold apart. */
  predicate Within(a: nat, b: nat) {
    a <= b + MaxDistanceThreshold && b <= a + MaxDistanceThreshold
  }

  predicate Ascending(g: seq<nat>) {
    forall i, j :: 0 <= i < j < |g| ==> g[i] <= g[j]
  }

  /**
   * The verdict of the scan of helper.cpp:266-275 for the index x over the list g: skip the
   * entries more than the threshold below x, then hit unless the next one is more than the
   * threshold above x.
   */
  function Hit(x: nat, g: seq<nat>): bool {
    if |g| == 0 then false
    else if g[0] + MaxDistanceThreshold < x then Hit(x, g[1..])
    else !(x + MaxDistanceThreshold < g[0])
  }

  /** On an ascending list the scan hits iff some entry lies within the threshold of x. */
  lemma {:induction false} HitIff(x: nat, g: seq<nat>)
    requires Ascending(g)
    ensures Hit(x, g) <==> exists i :: 0 <= i < |g| && Within(g[i], x)
  {
    if |g| != 0 {
      if g[0] + MaxDistanceThreshold < x {
        HitIff(x, g[1..]);
        if Hit(x, g) {
          var i :| 0 <= i < |g| - 1 && Within(g[1..][i], x);
          assert Within(g[i + 1], x);
        } else {
          forall i | 0 <= i < |g|
            ensures !Within(g[i], x)
          {
            if 0 < i {
              assert g[i] == g[1..][i - 1];
            }
          }
        }
      } else if x + MaxDistanceThreshold < g[0] {
        forall i | 0 <= i < |g|
          ensures !Within(g[i], x)
        {
          assert g[0] <= g[i];
        }
      } else {
        assert Within(g[0], x);
      }
    }
  }

  /** The inner loop of helper.cpp:264-276 for one simulated index. */
  method IsTruePositive(x: nat, g: seq<nat>) returns (isTp: bool)
    ensures isTp == Hit(x, g)
  {
    isTp := false;
    var i := 0;
    while i < |g|
      invariant i <= |g|
      invariant Hit(x, g) == Hit(x, g[i..])
    {
      if g[i] + MaxDistanceThreshold < x {
        assert g[i..][1..] == g[i + 1..];
        i := i + 1;
        continue;
      }
      if x + MaxDistanceThreshold < g[i] {
        break;
      }
      isTp := true;
      break;
    }
  }

  /** What one simulated index adds: one TP and |ref| - 1 FPs when it hits, else |ref| FPs. */
  function HitCounts(x: nat, g: seq<nat>, refCount: nat): Counts {
    if Hit(x, g) then Counts(1, refCount - 1, 0, 0) else Counts(0, refCount, 0, 0)
  }

  function HitsPart(s: seq<nat>, g: seq<nat>, refCount: nat): (d: Counts)
    ensures d.fn == 0 && d.total == 0
  {
    if |s| == 0 then Zero
    else
      var a, b := HitsPart(s[..|s| - 1], g, refCount), HitCounts(s[|s| - 1], g, refCount);
      Counts(a.tp + b.tp, a.fp + b.fp, a.fn + b.fn, a.total + b.total)
  }

  /** The sketches the first loop scores: present in the reference, and not too frequent. */
  predicate Scored(reference: seq<Entry>, key: nat) {
    match Find(reference, key)
    case None => false
    case Some(r) => |r| < MaximumFreqThreshold
  }

  /** What the first loop adds for one simulated entry (helper.cpp:241-283). */
  function GlobalSimKey(reference: seq<Entry>, gt: seq<Entry>, e: Entry): Counts {
    match Find(reference, e.key)
    case None => Zero
    case Some(r) =>
      if MaximumFreqThreshold <= |r| then Zero
      else match Find(gt, e.key)
        case None => Counts(0, |r| * |e.indices|, 0, 0)
        case Some(g) => HitsPart(e.indices, g, |r|)
  }

  /** What the first loop adds over the simulated entries. */
  function GlobalSim(reference: seq<Entry>, gt: seq<Entry>, sim: seq<Entry>): (d: Counts)
    ensures d.fn == 0 && d.total == 0
  {
    if |sim| == 0 then Zero
    else
      var a := GlobalSim(reference, gt, sim[..|sim| - 1]);
      var b := GlobalSimKey(reference, gt, sim[|sim| - 1]);
      Counts(a.tp + b.tp, a.fp + b.fp, a.fn + b.fn, a.total + b.total)
  }

  /**
   * The two readings of the false-negative loop of helper.cpp:306-317: the loop as written,
   * and the count its comment at line 311 describes.
   */
  datatype FnRule = AsWritten | Corrected

  /**
   * The inner loop of helper.cpp:307-316 for one ground-truth index x, corrected: x is a
   * false negative when no simulated index lies within the threshold, also when the loop
   * runs off the end of the list.
   */
  method Missed(x: nat, s: seq<nat>) returns (miss: bool)
    ensures miss == !Hit(x, s)
  {
    miss := true;
    var j := 0;
    while j < |s|
      invariant j <= |s|
      invariant Hit(x, s) == Hit(x, s[j..])
    {
      if s[j] + MaxDistanceThreshold < x {
        assert s[j..][1..] == s[j + 1..];
        j := j + 1;
        continue;
      } else if x + MaxDistanceThreshold < s[j] {
        break;
      }
      miss := false;
      break;
    }
  }

  /**
   * The verdict of the same inner loop as written: x counts only when the scan stops at a
   * simulated index more than the threshold above it, not when the loop runs off the end.
   */
  function MissAsWritten(x: nat, s: seq<nat>): bool {
    if |s| == 0 then false
    else if s[0] + MaxDistanceThreshold < x then MissAsWritten(x, s[1..])
    else x + MaxDistanceThreshold < s[0]
  }

  /** The inner loop of helper.cpp:307-316 as written, for one ground-truth index x. */
  method MissedAsWritten(x: nat, s: seq<nat>) returns (miss: bool)
    ensures miss == MissAsWritten(x, s)
  {
    miss := false;
    var j := 0;
    while j < |s|
      invariant j <= |s|
      invariant MissAsWritten(x, s) == MissAsWritten(x, s[j..])
    {
      if s[j] + MaxDistanceThreshold < x {
        assert s[j..][1..] == s[j + 1..];
        j := j + 1;
        continue;
      } else if x + MaxDistanceThreshold < s[j] {
        miss := true;
        break;
      }
      break;
    }
  }

  /** Some simulated index lies more than the threshold above x. */
  predicate Overshot(x: nat, s: seq<nat>) {
    exists j :: 0 <= j < |s| && x + MaxDistanceThreshold < s[j]
  }

  /** As written, a false negative needs some simulated index beyond x + threshold. */
  lemma {:induction false} MissAsWrittenIff(x: nat, s: seq<nat>)
    ensures MissAsWritten(x, s) <==> !Hit(x, s) && Overshot(x, s)
  {
    if |s| != 0 && s[0] + MaxDistanceThreshold < x {
      MissAsWrittenIff(x, s[1..]);
      if Overshot(x, s) {
        var j :| 0 <= j < |s| && x + MaxDistanceThreshold < s[j];
        assert s[1..][j - 1] == s[j];
      }
    }
  }

  /**
   * A ground-truth index above every simulated one is missed but not counted: with gt = [100]
   * and sim = [0] no simulated index is within the threshold, yet the count stays 0.
   */
  lemma MissAsWrittenSkipsLateIndex()
    ensures Ascending([0]) && !Within(0, 100)
    ensures !MissAsWritten(100, [0]) && !Hit(100, [0])
  {
  }

  /** The number of ground-truth indices with no simulated index within the threshold. */
  function Misses(g: seq<nat>, s: seq<nat>): (n: nat)
    ensures n <= |g|
  {
    if |g| == 0 then 0
    else Misses(g[..|g| - 1], s) + (if Hit(g[|g| - 1], s) then 0 else 1)
  }

  /** The number of ground-truth indices the loop as written counts as false negatives. */
  function MissesAsWritten(g: seq<nat>, s: seq<nat>): (n: nat)
    ensures n <= |g|
  {
    if |g| == 0 then 0
    else MissesAsWritten(g[..|g| - 1], s) + (if MissAsWritten(g[|g| - 1], s) then 1 else 0)
  }

  function MissCount(rule: FnRule, g: seq<nat>, s: seq<nat>): (n: nat)
    ensures n <= |g|
  {
    match rule
    case AsWritten => MissesAsWritten(g, s)
    case Corrected => Misses(g, s)
  }

  /**
   * The loop as written never counts more false negatives than the corrected rule, and
   * counts as many exactly when every missed ground-truth index has a simulated index more
   * than the threshold above it.
   */
  lemma {:induction false} MissesAsWrittenBound(g: seq<nat>, s: seq<nat>)
    ensures MissesAsWritten(g, s) <= Misses(g, s)
    ensures MissesAsWritten(g, s) == Misses(g, s) <==>
      forall i :: 0 <= i < |g| ==> Hit(g[i], s) || Overshot(g[i], s)
  {
    if |g| != 0 {
      var p, x := g[..|g| - 1], g[|g| - 1];
      MissesAsWrittenBound(p, s);
      MissAsWrittenIff(x, s);
      if MissesAsWritten(g, s) == Misses(g, s) {
        forall i | 0 <= i < |g| ensures Hit(g[i], s) || Overshot(g[i], s) {
          if i < |p| {
            assert g[i] == p[i];
          }
        }
      }
      if forall i :: 0 <= i < |g| ==> Hit(g[i], s) || Overshot(g[i], s) {
        forall i | 0 <= i < |p| ensures Hit(p[i], s) || Overshot(p[i], s) {
          assert p[i] == g[i];
        }
      }
    }
  }

  /** Every ground-truth sketch is in the reference, so `mapReference.at` does not throw. */
  predicate Covered(reference: seq<Entry>, gt: seq<Entry>) {
    forall i :: 0 <= i < |gt| ==> Find(reference, gt[i].key).Some?
  }

  /** What the second loop adds for one ground-truth entry (helper.cpp:287-318). */
  function GlobalGtKey(rule: FnRule, reference: seq<Entry>, sim: seq<Entry>, e: Entry): Counts
    requires Find(reference, e.key).Some?
  {
    if MaximumFreqThreshold <= |Find(reference, e.key).value| then Zero
    else match Find(sim, e.key)
      case None => Counts(0, 0, |e.indices|, 0)
      case Some(s) => Counts(0, 0, MissCount(rule, e.indices, s), 0)
  }

  /** What the second loop adds over the ground-truth entries: false negatives alone. */
  function GlobalGt(rule: FnRule, reference: seq<Entry>, sim: seq<Entry>, gt: seq<Entry>): (d: Counts)
    requires Covered(reference, gt)
    ensures d.tp == 0 && d.fp == 0 && d.total == 0
    ensures 0 <= d.fn <= Size(gt)
  {
    if |gt| == 0 then Zero
    else
      assert Covered(reference, gt[..|gt| - 1]);
      var a := GlobalGt(rule, reference, sim, gt[..|gt| - 1]);
      var b := GlobalGtKey(rule, reference, sim, gt[|gt| - 1]);
      Counts(a.tp + b.tp, a.fp + b.fp, a.fn + b.fn, a.total + b.total)
  }

  function GlobalDelta(rule: FnRule, reference: seq<Entry>, gt: seq<Entry>, sim: seq<Entry>): Counts
    requires Covered(reference, gt)
  {
    var a, b := GlobalSim(reference, gt, sim), GlobalGt(rule, reference, sim, gt);
    Counts(a.tp + b.tp, a.fp + b.fp, a.fn + b.fn, a.total + b.total)
  }

  /**
   * Over a whole run the loop as written adds no more false negatives than the corrected
   * rule, and the other counters agree.
   */
  lemma {:induction false} GlobalGtAsWrittenBound(reference: seq<Entry>, sim: seq<Entry>, gt: seq<Entry>)
    requires Covered(reference, gt)
    ensures GlobalGt(AsWritten, reference, sim, gt).fn <= GlobalGt(Corrected, reference, sim, gt).fn
  {
    if |gt| != 0 {
      assert Covered(reference, gt[..|gt| - 1]);
      GlobalGtAsWrittenBound(reference, sim, gt[..|gt| - 1]);
      var e := gt[|gt| - 1];
      match Find(sim, e.key)
      case None =>
      case Some(s) => MissesAsWrittenBound(e.indices, s);
    }
  }

  /**
   * The two rules on a whole run: the same TP, FP and total, and as written no more FN than
   * the corrected count.
   */
  lemma GlobalDeltaAsWritten(reference: seq<Entry>, gt: seq<Entry>, sim: seq<Entry>)
    requires Covered(reference, gt)
    ensures var w, c := GlobalDelta(AsWritten, reference, gt, sim), GlobalDelta(Corrected, reference, gt, sim);
      w.tp == c.tp && w.fp == c.fp && w.total == c.total && w.fn <= c.fn
  {
    GlobalGtAsWrittenBound(reference, sim, gt);
  }

  /**
   * A whole run on which the loop as written undercounts: reference [7: [5]], ground truth
   * [7: [100]] and simulation [7: [0]] give no false negative as written, one when corrected.
   */
  lemma GlobalUndercountExample()
    ensures Covered([Entry(7, [5])], [Entry(7, [100])])
    ensures GlobalDelta(AsWritten, [Entry(7, [5])], [Entry(7, [100])], [Entry(7, [0])]).fn == 0
    ensures GlobalDelta(Corrected, [Entry(7, [5])], [Entry(7, [100])], [Entry(7, [0])]).fn == 1
  {
    var reference, gt, sim := [Entry(7, [5])], [Entry(7, [100])], [Entry(7, [0])];
    assert Find(reference, 7) == Some([5]);
    assert Find(sim, 7) == Some([0]);
    assert Covered(reference, gt);
    assert [100][..0] == [];
    assert !MissAsWritten(100, [0]) && !Hit(100, [0]);
    assert GlobalGt(AsWritten, reference, sim, gt).fn == 0;
    assert GlobalGt(Corrected, reference, sim, gt).fn == 1;
  }

  /** The body of the first loop for one simulated entry. */
  method GlobalSimEntry(reference: seq<Entry>, gt: seq<Entry>, e: Entry, c: Counts)
    returns (c': Counts)
    ensures Raised(c', c, GlobalSimKey(reference, gt, e))
  {
    c' := c;
    var found := Find(reference, e.key);
    if found.None? {
      return;
    }
    var refIndices := found.value;
    if MaximumFreqThreshold <= |refIndices| {
      return;
    }
    var gtFound := Find(gt, e.key);
    if gtFound.None? {
      c' := c'.(fp := c'.fp + |refIndices| * |e.indices|);
      return;
    }
    var gtIndices := gtFound.value;
    var j := 0;
    while j < |e.indices|
      invariant j <= |e.indices|
      invariant Raised(c', c, HitsPart(e.indices[..j], gtIndices, |refIndices|))
    {
      var isTp := IsTruePositive(e.indices[j], gtIndices);
      if !isTp {
        c' := c'.(fp := c'.fp + |refIndices|);
      } else {
        c' := c'.(tp := c'.tp + 1, fp := c'.fp + (|refIndices| - 1));
      }
      assert e.indices[..j + 1][..j] == e.indices[..j];
      j := j + 1;
    }
    assert e.indices[..j] == e.indices;
  }

  /**
   * The body of the second loop for one ground-truth entry, its inner loop read by the rule;
   * None when `.at` throws.
   */
  method GlobalGtEntry(rule: FnRule, reference: seq<Entry>, sim: seq<Entry>, e: Entry, c: Counts)
    returns (r: Option<Counts>)
    ensures r.None? <==> Find(reference, e.key).None?
    ensures r.Some? ==> Raised(r.value, c, GlobalGtKey(rule, reference, sim, e))
  {
    var found := Find(reference, e.key);
    if found.None? {
      return None;
    }
    var refIndices := found.value;
    if MaximumFreqThreshold <= |refIndices| {
      return Some(c);
    }
    var simFound := Find(sim, e.key);
    if simFound.None? {
      return Some(c.(fn := c.fn + |e.indices|));
    }
    var simIndices := simFound.value;
    var c' := c;
    var j := 0;
    while j < |e.indices|
      invariant j <= |e.indices|
      invariant Raised(c', c, Counts(0, 0, MissCount(rule, e.indices[..j], simIndices), 0))
    {
      var miss;
      if rule == AsWritten {
        miss := MissedAsWritten(e.indices[j], simIndices);
        assert miss == MissAsWritten(e.indices[..j + 1][j], simIndices);
      } else {
        miss := Missed(e.indices[j], simIndices);
        assert miss == !Hit(e.indices[..j + 1][j], simIndices);
      }
      if miss {
        c' := c'.(fn := c'.fn + 1);
      }
      assert e.indices[..j + 1][..j] == e.indices[..j];
      j := j + 1;
    }
    assert e.indices[..j] == e.indices;
    return Some(c');
  }

  /** The two loops of alignment_global_stats, the false-negative loop read by the rule. */
  method GlobalStatsWith(rule: FnRule, reference: IndexMap, gt: IndexMap, sim: IndexMap, c: Counts)
    returns (r: Option<Counts>)
    ensures r.Some? <==> Covered(reference, gt)
    ensures r.Some? ==> Raised(r.value, c, GlobalDelta(rule, reference, gt, sim))
  {
    var c' := c;
    var i := 0;
    while i < |sim|
      invariant i <= |sim|
      invariant Raised(c', c, GlobalSim(reference, gt, sim[..i]))
    {
      c' := GlobalSimEntry(reference, gt, sim[i], c');
      assert sim[..i + 1][..i] == sim[..i];
      i := i + 1;
    }
    assert sim[..i] == sim;
    ghost var afterSim := c';
    i := 0;
    while i < |gt|
      invariant i <= |gt|
      invariant Covered(reference, gt[..i])
      invariant Raised(c', afterSim, GlobalGt(rule, reference, sim, gt[..i]))
    {
      var next := GlobalGtEntry(rule, reference, sim, gt[i], c');
      if next.None? {
        return None;
      }
      c' := next.value;
      assert gt[..i + 1][..i] == gt[..i];
      i := i + 1;
    }
    assert gt[..i] == gt;
    return Some(c');
  }

  /**
   * `alignment_global_stats` as written: the first loop scores each simulated sketch against
   * every reference hit, the second counts false negatives by the loop of lines 306-317 as it
   * stands. None stands for the exception `.at` throws on a ground-truth sketch missing from
   * the reference.
   */
  method GlobalStats(reference: IndexMap, gt: IndexMap, sim: IndexMap, c: Counts)
    returns (r: Option<Counts>)
    ensures r.Some? <==> Covered(reference, gt)
    ensures r.Some? ==> Raised(r.value, c, GlobalDelta(AsWritten, reference, gt, sim))
  {
    r := GlobalStatsWith(AsWritten, reference, gt, sim, c);
  }

  /** `alignment_global_stats` with every missed ground-truth index counted as a false negative. */
  method GlobalStatsCorrected(reference: IndexMap, gt: IndexMap, sim: IndexMap, c: Counts)
    returns (r: Option<Counts>)
    ensures r.Some? <==> Covered(reference, gt)
    ensures r.Some? ==> Raised(r.value, c, GlobalDelta(Corrected, reference, gt, sim))
  {
    r := GlobalStatsWith(Corrected, reference, gt, sim, c);
  }

  /** A scored simulated sketch raises TP + FP by exactly |ref| * |sim|, and FN not at all. */
  lemma GlobalScoredKey(reference: seq<Entry>, gt: seq<Entry>, e: Entry)
    requires Scored(reference, e.key)
    ensures var d := GlobalSimKey(reference, gt, e);
      d.tp + d.fp == |Find(reference, e.key).value| * |e.indices| && d.fn == 0
  {
    var g := Find(gt, e.key);
    if g.Some? {
      HitsPartSum(e.indices, g.value, |Find(reference, e.key).value|);
    }
  }

  lemma {:induction false} HitsPartSum(s: seq<nat>, g: seq<nat>, refCount: nat)
    ensures var d := HitsPart(s, g, refCount); d.tp + d.fp == refCount * |s|
  {
    if |s| != 0 {
      HitsPartSum(s[..|s| - 1], g, refCount);
      assert refCount * (|s| - 1) + refCount == refCount * |s|;
    }
  }

  /**
   * The simulated entries whose sketch the first loop scores: each scored entry is kept as
   * often as it occurs in the simulation, and no other entry is kept.
   */
  function ScoredOnly(reference: seq<Entry>, sim: seq<Entry>): (r: seq<Entry>)
    ensures forall i :: 0 <= i < |r| ==> Scored(reference, r[i].key)
    ensures forall e :: multiset(r)[e] == if Scored(reference, e.key) then multiset(sim)[e] else 0
  {
    if |sim| == 0 then []
    else
      var p, last := sim[..|sim| - 1], sim[|sim| - 1];
      assert sim == p + [last];
      if Scored(reference, last.key) then ScoredOnly(reference, p) + [last]
      else ScoredOnly(reference, p)
  }

  /** Simulated sketches outside the reference or above the threshold change no counter. */
  lemma {:induction false} GlobalSkipped(reference: seq<Entry>, gt: seq<Entry>, sim: seq<Entry>)
    ensures GlobalSim(reference, gt, sim) == GlobalSim(reference, gt, ScoredOnly(reference, sim))
  {
    if |sim| != 0 {
      var p, e := sim[..|sim| - 1], sim[|sim| - 1];
      GlobalSkipped(reference, gt, p);
      var r := ScoredOnly(reference, sim);
      if Scored(reference, e.key) {
        assert r[..|r| - 1] == ScoredOnly(reference, p) && r[|r| - 1] == e;
      } else {
        assert GlobalSimKey(reference, gt, e) == Zero;
      }
      CountsExt(GlobalSim(reference, gt, sim), GlobalSim(reference, gt, r));
    }
  }

  /** The reference hits of the scored simulated sketches: |ref| * |sim| summed over them. */
  function ScoredHits(reference: seq<Entry>, sim: seq<Entry>): nat {
    if |sim| == 0 then 0
    else
      var e := sim[|sim| - 1];
      ScoredHits(reference, sim[..|sim| - 1]) +
        (if Scored(reference, e.key) then |Find(reference, e.key).value| * |e.indices| else 0)
  }

  /** Over the whole first loop, TP + FP rises by the reference hits of the scored sketches. */
  lemma {:induction false} GlobalSimTpFp(reference: seq<Entry>, gt: seq<Entry>, sim: seq<Entry>)
    ensures var d := GlobalSim(reference, gt, sim); d.tp + d.fp == ScoredHits(reference, sim)
  {
    if |sim| != 0 {
      var e := sim[|sim| - 1];
      GlobalSimTpFp(reference, gt, sim[..|sim| - 1]);
      if Scored(reference, e.key) {
        GlobalScoredKey(reference, gt, e);
      }
    }
  }
}
