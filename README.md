# lcptools in Dafny

lcptools builds a locally consistent parse (LCP) of a DNA text.

Level 1 scans the 2-bit codes of the text. It cuts the text into overlapping *cores* at
three kinds of local patterns:

- RINT, a run `x y^m z`;
- LMIN, a local minimum `x > y < z`;
- LMAX, a local maximum `x < y > z` with guards on either side.

An SSEQ core fills the gap between two cores that do not touch.

Each deeper level does two things. First it compresses the cores with deterministic coin
tossing (DCT) passes. Then it parses the 2-bit classes of the compressed cores with the same
rules. A level-3 core is labelled by a 32-bit MurmurHash3-style hash of three labels and a
length.

The `experiment/` benchmarks compare LCP cores with two classic sketches:

- window minimizers, forward and canonical;
- open syncmers.

They score sketches of a simulated read against a ground truth with TP/FP/FN counting rules.

## What this project models

- `Wrappers` holds the `Option` type.
- `Encoding` covers bytes, 2-bit codes and the two alphabet tables, which are a parameter.
- `Murmur` covers `murmurhash32`, with 32-bit unsigned arithmetic written out on integers below 2^32.
- `Core` covers `struct core`, the six comparison macros and `init_core1`..`init_core4`.
- `Parser` is one scan over integer symbols with the rule order of the C loops. It produces
  typed spans, and all its properties are proved once.
- `Lcp` covers `parse1`, `parse2` and `reverse` (lps.c) on top of `Parser`.
- `Level3` covers `parse3` as an in-place algorithm on an `array<Core>`. The model proves two
  facts:
  - the write index never overtakes a source core that is still to be read;
  - the written front is the specified level-3 parse.
- `LpsStruct` covers the `Lps` class, with fields `level`, `size`, `cores` and the constant
  `dct`. It models `init_lps`, `lcp_dct`, `lps_deepen1` and `lps_deepen` as methods, with
  `core_compress` as a function parameter, and also models `lps_eq` and `lps_neq`.
- `Kmer` covers `encode`, `rc_encode`, `init_map` and `init_rc_map` of
  experiment/sketches/minimizer.cpp (64-bit) and syncmer.cpp (32-bit). It also models the
  `std::map<kmer, vector<index>>` that the sketches fill.
- `LexOrder` is the `byte | 0x20` lexicographic order on signed chars and the leftmost minimum
  of a range.
- `Minimizer` covers `process`, `process2`, `process3`, `process4` and the loop of
  `findMinimizers` (experiment/famin.cpp).
- `Syncmer` covers the syncmer `process` and `process3`.
- `Helper` covers `reverse_complement` (in place on an array), `alignment_pairwise_stats` and
  `alignment_global_stats` in experiment/helper.cpp. A `std::map` is a sequence of entries with
  strictly ascending keys, which is its iteration order.
  `GlobalStats` counts false negatives by the loop of helper.cpp:306-317 as it stands;
  `GlobalStatsCorrected` counts them as the comment at line 311 describes (see Findings).
- `LcpTools` covers `validate_extension` and `isNumber` of lcptools.c.

`lps_eq` returns 0 when the two parses agree, and `lps_neq` returns 1 then; the model follows
lps.c. tests/test_lps.cpp:37 uses `lps_eq(...)` as if it were true on equality.

## Model

| member | source | states |
|---|---|---|
| Core.ComparisonsAreConsistent | core.h:135-185 | exactly one of core_lt, core_eq, core_gt holds; core_neq is the negation of core_eq; core_leq is lt-or-eq, core_geq is gt-or-eq; lt(a,b) iff gt(b,a) |
| Core.ComparisonsSeeOnlyLowBits | core.h:135-185 | replacing labels by any labels with the same two low bits (and any intervals) changes no comparison result |
| Core.PackLabel | core.c:93 | the packed label unpacks: label & 3 is c3, (label>>2)&3 is c2, (label>>4)&3 is c1, label>>6 is (distance-2) mod 2^26 |
| Core.PackLabelInjective | core.c:93 | two labels with the same value have the same three codes and the same distance modulo 2^26 |
| Core.InitCore | core.c:87-103 | init_core1/2 keep the given start and end; the core's class is the code of its last byte, and the label holds the codes of the first and second-to-last bytes and the distance |
| Core.InitCore2IsInitCore1OnRc | core.c:96-103 | init_core2 is init_core1 with the rc table in place of the forward table |
| Core.InitCore3 | core.c:105-107 | the level-3 core starts where the first source core starts and ends where the last one ends |
| Core.InitCore3Label | core.c:108-109 | the level-3 label is murmurhash32 with seed 42 of the 16 little-endian bytes of the four words, and also its fall-through variant's hash of them |
| Core.InitCore3SeesLabels | core.c:108-109 | the level-3 label depends only on the first, second-to-last and last labels and the distance |
| Core.InitCore3Reads | core.c:105-110 | init_core3 reads only three source cores: interior cores never affect the result |
| Core.InitCore4RoundTrip | core.c:112-116 | rebuilding a core from its own fields gives the same core |
| Core.CoreTestCases | tests/test_core.cpp:14-37 | the constructor and the six comparisons give the results the unit tests assert |
| Encoding.Encode | lps.c:53-58 | the symbol sequence a parser compares has one code below 4 per byte, the table's entry for that byte |
| Encoding.DnaCodesComplement | tests/test_encoding.cpp:16-33 | under the default tables the forward and rc codes of each nucleotide letter add up to 3 |
| Encoding.ReversedInvolutive | lps.c:3-18 | reversing twice gives the text back |
| Murmur.MurmurHash32 | core.c:31-85 | the loop, with block index from -nblocks to 0, computes the block rounds, the tail step as written, h ^= len and fmix32 |
| Murmur.AgreesWithFallThrough | core.c:60-73 | with a tail of 0 or 1 bytes the hash as written equals the variant whose tail cases fall through |
| Murmur.TailBytesIgnored | core.c:60-67 | for len mod 4 in {2, 3} the tail bytes never change the hash: cases 3 and 2 break before mixing |
| Murmur.TwoByteKeysCollide | core.c:60-67 | every two-byte key hashes like [0, 0] |
| Murmur.BodyOnlyReadsBlocks | core.c:43-53 | the block rounds depend only on the whole 4-byte blocks they consume |
| Murmur.HashOfWords | core.c:33-84 | hashing whole 32-bit words is the block rounds over the words then the finaliser, and equals the fall-through variant |
| Murmur.BlockOfWordBytes | core.c:41-44 | block j of the little-endian image of a word array is word j |
| Murmur.WholeBlocksHaveNoTail | core.c:56-73 | a key of whole blocks leaves the state unchanged in the tail step, both as written and with the cases falling through |
| Parser.RunEnd | lps.c:61-66 | the temp loop stops at the first code change at or after t or at the end; every symbol before it equals s[t-1] |
| Parser.RunEndIs | lps.c:61-66 | any r with that property is the one the loop finds |
| Parser.MatchAtRules | lps.c:50-123 | one loop step yields a RINT span iff the RINT pattern holds, an LMIN span iff the LMIN pattern holds, an LMAX span iff the LMAX pattern holds away from the first position, and nothing otherwise |
| Parser.RulesAreExclusive | lps.c:58-109 | the RINT, LMIN and LMAX patterns exclude one another |
| Parser.RintEndUnique | lps.c:58-80 | a RINT pattern at a position has a single end |
| Parser.MatchAtRint | lps.c:58-80 | with x != y == z and a run that does not reach the end, the RINT core ends one past the run |
| Parser.NoSpanStartsOnRepeat | lps.c:53-55 | no core starts where a code equals its successor |
| Parser.RintNeedsClosingSymbol | lps.c:63-67 | a run of equal codes reaching the end of the input yields no core at that position |
| Parser.NoMatchInsideRun | lps.c:58-80 | positions strictly inside the repeated run of a core hold repeated codes |
| Parser.MatchAtShape | lps.c:58-123 | a core found at i starts at i and covers at least three symbols |
| Parser.ScanStep | lps.c:50-124 | one iteration either only advances it1, or emits the pending SSEQ span and the match and sets it2 to the match's end |
| Parser.ScanAdvance | lps.c:50-124 | the spans behind it1 plus the rest of the scan stay equal to all spans as it1 advances |
| Parser.ScanStateAdvance | lps.c:67-79 | a match moves the gap span and the match from the rest of the scan to the spans seen |
| Parser.MatchesSound | lps.c:50-124 | every core the rules produce is the rule's span at its own start |
| Parser.MatchesComplete | lps.c:50-124 | every position where a rule fires starts a core |
| Parser.MatchesIncreasing | lps.c:50-124 | starts and ends of consecutive rule cores strictly increase, although cores overlap |
| Parser.ScanIsGappedMatches | lps.c:46-127 | the scan's output is the rule cores with SSEQ gap spans inserted, it2 starting at the input length |
| Parser.NonGapsOfGapped | lps.c:69-72 | removing the SSEQ spans gives back the rule cores |
| Parser.GappedPlacesGaps | lps.c:69-72 | an SSEQ span stands exactly where a core starts after the previous one ended, from its last symbol to the new core's first symbol |
| Parser.GappedHead | lps.c:46-72 | the first span follows from whether the previous end is before the first core |
| Parser.GappedWellFormed | lps.c:69-76 | inserting SSEQ spans keeps spans inside the input with strictly increasing starts and ends |
| Parser.CountBound | lps.c:50 | strictly increasing starts within [lo, hi] allow at most hi - lo + 1 spans |
| Parser.SpansWellFormed | lps.c:50-127 | all spans lie inside the input, cover at least 3 symbols, increase strictly, and number at most len - 2 |
| Parser.SpansProperties | lps.c:43-127 | all of the above, plus: the non-SSEQ spans are exactly the rule matches, SSEQ spans fill exactly the gaps, and no SSEQ span comes first |
| Parser.NonGapMember | lps.c:69-122 | every non-SSEQ span is among the rule cores |
| Parser.NonGapIndex | lps.c:69-122 | every rule core stands somewhere in the output |
| Lcp.Level1Cores | lps.c:70-119 | one core per span |
| Lcp.MatchCodes | lps.c:53-123 | the body of parse1's loop through the table is the parser's rule step on the encoded text |
| Lcp.RunEndOfCodes | lps.c:61-66 | the temp loop over bytes is RunEnd on the codes |
| Lcp.ParseLevel1 | lps.c:43-127 | the loop with it1, it2 and core_index writes exactly the level-1 cores of the text |
| Lcp.Level1Step | lps.c:50-124 | one iteration keeps the loop invariant: the cores written are those of the spans behind it1 |
| Lcp.MatchCores | lps.c:67-79 | a firing rule writes the SSEQ core of the gap, if any, then the core of the match |
| Lcp.GapCores | lps.c:69-72 | the SSEQ core spans it2-1 .. it1+1 and is the core of the scan's gap span |
| Lcp.Level1MatchBounds | lps.c:67-76 | a match lies inside the text and a gap before it starts after 0 |
| Lcp.Level1AdvanceNone | lps.c:50-124 | a position without a match leaves the written cores unchanged |
| Lcp.Level1AdvanceMatch | lps.c:67-79 | a match extends the written cores by the gap core and the match core |
| Lcp.Level1Append | lps.c:70-76 | appending the gap and match cores keeps written cores and spans in step |
| Lcp.Level1Of | lps.c:126 | cores that match the spans one by one are the level-1 parse |
| Lcp.Parse1 | lps.c:43-127 | parse1 gives the level-1 cores under the forward table |
| Lcp.Parse2 | lps.c:129-213 | parse2 gives the level-1 cores under the rc table, so it is parse1 with the tables swapped |
| Lcp.Level1Properties | lps.c:50-127 | no core for fewer than 3 symbols; at most len-2 cores; each satisfies start+3 <= end <= len; its class is the code of its last byte; starts and ends strictly increase |
| Lcp.Level1CoresOrdered | lps.c:70-119 | cores take their spans' start and end, so increasing spans give ordered cores |
| Lcp.ReverseAsWritten | lps.c:3-18 | reverse as written: fails on an empty text (right = len - 1 wraps), otherwise rev[k] == str[len-1-k] |
| Lcp.Reverse | lps.c:3-18 | the reversal with the empty text handled: rev[k] == str[len-1-k] |
| Level3.Level3Cores | lps.c:242-291 | one level-3 core per span |
| Level3.Level3CoresSnoc | lps.c:242-291 | cores of a span list extended by one span gain that span's core |
| Level3.RunEndOfCores | lps.c:233-238 | the temp loop over cores is RunEnd on the classes |
| Level3.MatchCores | lps.c:225-295 | one pass of parse3's loop body is the parser's rule step on the classes, with D as the position LMAX skips |
| Level3.BuildCore | lps.c:242-248 | init_core3 reads D cores left of the span's start up to its last core, none of them overwritten yet |
| Level3.Emit | lps.c:242-249 | writing cores[count] adds the span's core to the written front and touches no other entry |
| Level3.EmitCore | lps.c:242-249 | building and writing one core keeps the written front equal to the cores of the spans seen |
| Level3.Level3AdvanceNone | lps.c:222-296 | a position without a match leaves the array and the count unchanged |
| Level3.Level3AdvanceMatch | lps.c:239-294 | a match writes the pending SSEQ core and the match core and keeps the write index clear of unread source cores |
| Level3.Level3Step | lps.c:222-296 | one iteration keeps the scan invariant and leaves entries from size on unchanged |
| Level3.Parse3Scan | lps.c:215-298 | the loop writes every span of the scan from 2*D as a core, in order |
| Level3.Parse3 | lps.c:215-298 | cores[..count] becomes the level-3 parse of the old cores[..size], count <= size, and every entry from count on is the old one |
| Level3.Level3Of | lps.c:215-298 | the written front is the level-3 parse and the rest of the array is as it was |
| Level3.Level3Properties | lps.c:217-298 | at most size - 2 - 2D new cores; none when fewer than 2D + 3 come in; ordered input gives ordered output lying inside what cores D.. covered |
| Level3.Level3CoreInside | lps.c:242-291 | each level-3 core takes its start from the source core D before its span and its end from the span's last core; on ordered input both lie between `src[D].start` and the last core's end |
| Level3.Level3CoresOrdered | lps.c:242-291 | increasing spans over ordered source cores give ordered level-3 cores |
| Level3.Level3CoresApart | lps.c:242-291 | of two increasing spans, the later one's core starts and ends strictly later |
| LpsStruct.DctPass | lps.c:331-335 | one DCT pass keeps the number of cores |
| LpsStruct.DctPasses | lps.c:330-336 | DCT passes keep the number of cores |
| LpsStruct.DctPassesKeepPrefix | lps.c:330-336 | pass p uses only cores p+1.. as right argument, so core 0 never changes and core k is settled after k passes |
| LpsStruct.DctPassesNext | lps.c:330-336 | the pass after n passes gives n+1 passes |
| LpsStruct.DctPassesKeepPositions | lps.c:330-336 | with a compression that keeps intervals, DCT changes labels only |
| LpsStruct.DeepenStepProperties | lps.c:341-362 | a deepening never adds cores, changes nothing when DCT refuses, otherwise leaves at most size-2-2D cores (none when fewer than 2D+2), and keeps cores ordered |
| LpsStruct.RunIsDeepenTimes | lps.c:370 | the states of the lps_deepen loop are successive deepenings of the first state |
| LpsStruct.RunExtend | lps.c:370 | one more lps_deepen1 extends the run of states |
| LpsStruct.DeepenTimesShrinks | lps.c:365-374 | however many levels are gained, the core count never grows |
| LpsStruct.DeepenTimesOrdered | lps.c:365-374 | however many levels are gained, core starts and ends stay strictly increasing |
| LpsStruct.Lps.constructor | lps.c:20-33 | init_lps: level 1 and the parse1 cores of the text, or the parse2 cores of its reversed copy |
| LpsStruct.Lps.Dct | lps.c:323-339 | -1 and no change with fewer than dct+2 cores; otherwise 0 and the cores after dct passes, the array beyond size untouched |
| LpsStruct.Lps.CompressPasses | lps.c:330-336 | the outer loop of lcp_dct performs dct passes |
| LpsStruct.Lps.CompressPass | lps.c:331-335 | the inner loop rewrites each right core from size-1 down to p+1 |
| LpsStruct.Lps.Deepen1 | lps.c:341-362 | 0 and nothing changed when DCT refuses; else 1, level up by exactly one, size never larger, cores as the deepening step |
| LpsStruct.Lps.Deepen | lps.c:365-374 | 0 and nothing changed when lcp_level <= level; else 1, level <= lcp_level, one deepening per level gained, short of lcp_level only if the last step refused |
| LpsStruct.Lps.DeepenLoop | lps.c:370-371 | the while loop ends at lcp_level or when lps_deepen1 refuses for want of cores |
| LpsStruct.SameClassesIsClassEquality | lps.c:384-410 | the test of lps_eq/lps_neq is equality of the class sequences, an equivalence |
| LpsStruct.LpsEq | lps.c:384-396 | lps_eq returns 0 exactly when sizes match and every pair of cores has the same class, else 1 |
| LpsStruct.LpsNeq | lps.c:398-410 | lps_neq returns 1 exactly then, else 0: the complement of lps_eq |
| Kmer.InitMap | experiment/sketches/minimizer.cpp:83-91 | every entry is 0 except A/C/G/T in either case, which map to 0/1/2/3 |
| Kmer.InitRcMap | experiment/sketches/minimizer.cpp:103-111 | every entry is 0 except A/C/G/T in either case, which map to 3/2/1/0 |
| Kmer.MapsComplement | experiment/sketches/minimizer.cpp:83-111 | map[c] + rc_map[c] == 3 for the eight letters, and both are 0 for every other byte |
| Kmer.ShiftLeavesRoom | experiment/sketches/minimizer.cpp:45-46 | after res *= 4 the two low bits are clear, so OR-ing in a code is adding it |
| Kmer.Encode | experiment/sketches/minimizer.cpp:42-49 | the encoding fits the kmer width (2^64 or 2^32) |
| Kmer.EncodeIsMod | experiment/sketches/minimizer.cpp:42-49 | encode is the base-4 value of the codes modulo the width |
| Kmer.EncodeSnoc | experiment/sketches/minimizer.cpp:44-47 | encode(s + [c]) == (encode(s) * 4 mod width) + map[c], with encode([]) == 0 |
| Kmer.EncodeExact | experiment/sketches/minimizer.cpp:42-49 | up to 32 (64-bit) or 16 (32-bit) bases encode is the exact base-4 value |
| Kmer.Base4Bound | experiment/sketches/minimizer.cpp:42-49 | the base-4 value of n codes is below 4^n |
| Kmer.Base4Append | experiment/sketches/minimizer.cpp:44-47 | the base-4 value of a + b is a's value shifted past the codes of b plus b's |
| Kmer.Base4Injective | experiment/sketches/minimizer.cpp:42-49 | equal base-4 values of equally long k-mers mean equal codes at every position |
| Kmer.RcEncode | experiment/sketches/minimizer.cpp:64-71 | the rc encoding fits the kmer width |
| Kmer.RcEncodeIsMod | experiment/sketches/minimizer.cpp:64-71 | rc_encode is the backwards base-4 value modulo the width |
| Kmer.RcEncodeCons | experiment/sketches/minimizer.cpp:66-69 | the loop from end-1 down to begin puts the first byte's code last, in the low bits |
| Kmer.RcBase4Append | experiment/sketches/minimizer.cpp:66-69 | read backwards, a + b is a's value plus b's value shifted past the codes of a |
| Kmer.RcBase4IsBase4OfReversed | experiment/sketches/minimizer.cpp:64-71 | reading the k-mer backwards is reading its reversal forwards |
| Kmer.RcEncodeIsEncodeOfReversed | experiment/sketches/minimizer.cpp:64-71 | rc_encode(s) is the same accumulation over the reversed range |
| Kmer.EncodeRange | experiment/sketches/minimizer.cpp:42-49 | the loop over [begin, end) computes encode of that range |
| Kmer.RcEncodeRange | experiment/sketches/minimizer.cpp:64-71 | the loop from end-1 down to begin computes rc_encode of that range |
| Kmer.Lookup | experiment/sketches/minimizer.cpp:46 | a map entry is a 2-bit code |
| Kmer.Push | experiment/sketches/minimizer.cpp:240 | map[key].push_back(v) appends v to key's list, creates an empty list for a new key first, and leaves other keys alone |
| LexOrder.Fold | experiment/sketches/minimizer.cpp:138-142 | a signed char with bit 5 set: ASCII bytes fold to byte OR 0x20, bytes >= 128 to negative values |
| LexOrder.Or20Fields | experiment/sketches/minimizer.cpp:138 | OR-ing 0x20 keeps the top two and low five bits and sets bit 5 |
| LexOrder.FoldIgnoresBit5 | experiment/sketches/minimizer.cpp:138 | bytes that differ only in bit 5 (letter case) compare equal |
| LexOrder.FoldDistinguishes | experiment/sketches/minimizer.cpp:138 | any other two bytes compare different |
| LexOrder.FoldExamples | experiment/sketches/minimizer.cpp:138-142 | 'A' and 'a' are equal, and a byte >= 128 precedes every ASCII byte |
| LexOrder.LexLessIrreflexive | experiment/sketches/minimizer.cpp:137-142 | no k-mer precedes itself |
| LexOrder.LexLessAsymmetric | experiment/sketches/minimizer.cpp:137-142 | two k-mers never precede each other |
| LexOrder.LexLessTransitive | experiment/sketches/minimizer.cpp:137-142 | the order is transitive |
| LexOrder.LexLessTotal | experiment/sketches/minimizer.cpp:137-142 | two different folded k-mers of one length are ordered one way or the other |
| LexOrder.LexLessAt | experiment/sketches/minimizer.cpp:137-142 | only the first differing position decides |
| LexOrder.Precedes | experiment/sketches/minimizer.cpp:135-142 | the temp_index loop decides exactly the folded lexicographic order |
| LexOrder.LeftmostMinSingle | experiment/sketches/minimizer.cpp:129 | the first k-mer is the default minimum |
| LexOrder.LeftmostMinExtend | experiment/sketches/minimizer.cpp:141-145 | a new k-mer replaces the minimum exactly when strictly smaller, keeping the leftmost minimum |
| LexOrder.LeftmostMin | experiment/sketches/minimizer.cpp:128-149 | the leftmost minimum lies in the range |
| LexOrder.LeftmostMinIsLeftmostMin | experiment/sketches/minimizer.cpp:128-149 | it is smaller than no other k-mer, and strictly smaller than every earlier one |
| LexOrder.LeftmostMinUnique | experiment/sketches/minimizer.cpp:128-149 | there is one leftmost minimum |
| LexOrder.LeftmostMinOf | experiment/sketches/minimizer.cpp:128-149 | any leftmost minimum is the one LeftmostMin finds |
| LexOrder.SlidingWindow | experiment/famin.cpp:41-54 | sliding a window one step moves its minimum right by at most the window size and never left |
| LexOrder.SlidingLeftmostMin | experiment/famin.cpp:41-54 | the same for the minima of two consecutive windows |
| LexOrder.LeftmostMinMonotone | experiment/sketches/minimizer.cpp:134-149 | widening a window to the right never moves its minimum left |
| Minimizer.WindowEnd | experiment/sketches/minimizer.cpp:129-134 | the first k-mer is always compared, even in an empty window |
| Minimizer.WindowAscii | experiment/sketches/minimizer.cpp:152 | every k-mer of a fitting window indexes the map |
| Minimizer.ScanWindow | experiment/sketches/minimizer.cpp:129-149 | the scan of process returns the window's leftmost folded-minimal k-mer |
| Minimizer.WindowMin | experiment/sketches/minimizer.cpp:128-149 | the chosen index lies in [begin, end) when the window is not empty |
| Minimizer.Process | experiment/sketches/minimizer.cpp:128-154 | appends (encode of the leftmost minimal k-mer, index + its offset) unless the last entry has that position |
| Minimizer.ProcessAt | experiment/famin.cpp:42 | as findMinimizers calls process: the last entry afterwards has the window minimum's position |
| Minimizer.SlidingWindowMin | experiment/famin.cpp:41-54 | consecutive window minima are at most w apart and never move left |
| Minimizer.SpacedAppend | experiment/sketches/minimizer.cpp:151-153 | appending a later position at most w on keeps the spacing |
| Minimizer.FindMinimizers | experiment/famin.cpp:38-54 | positions of consecutive minimizers strictly increase and lie at most the window size apart, which is the assert at famin.cpp:54 |
| Minimizer.Process3 | experiment/sketches/minimizer.cpp:215-244 | returns the chosen index; files it under its k-mer's encoding only when previous_index is -1 or differs |
| Minimizer.LeastIndex | experiment/sketches/minimizer.cpp:171-193 | the leftmost least value's index lies in the prefix |
| Minimizer.LeastIndexIsLeast | experiment/sketches/minimizer.cpp:171-193 | its value is the least one, and every earlier value is strictly larger |
| Minimizer.LeastExtend | experiment/sketches/minimizer.cpp:181-189 | a new value replaces the minimum exactly when strictly smaller |
| Minimizer.LeastUnique | experiment/sketches/minimizer.cpp:171-193 | the leftmost least is unique |
| Minimizer.LeastIndexOf | experiment/sketches/minimizer.cpp:171-193 | any leftmost least is the one LeastIndex finds |
| Minimizer.CanonicalValues | experiment/sketches/minimizer.cpp:171-179 | one min(fwd, rc) value per k-mer of the window |
| Minimizer.CanonicalArgMin | experiment/sketches/minimizer.cpp:170-193 | the chosen k-mer lies in the window |
| Minimizer.CanonicalArgMinIsMin | experiment/sketches/minimizer.cpp:170-193 | its min(fwd, rc) is the least in the window, and every earlier k-mer's is strictly larger |
| Minimizer.LeastIsCanonicalMin | experiment/sketches/minimizer.cpp:170-193 | a least of the window's canonical values bounds every k-mer's |
| Minimizer.CanonicalArgMinOf | experiment/sketches/minimizer.cpp:170-193 | a leftmost least of the canonical values is the chosen k-mer and its value |
| Minimizer.CanonicalOf | experiment/sketches/minimizer.cpp:171 | the two encodings give min(fwd, rc) |
| Minimizer.CanonicalValue | experiment/sketches/minimizer.cpp:178-179 | the smaller of the two encodings of one k-mer |
| Minimizer.CanonicalStep | experiment/sketches/minimizer.cpp:178-189 | the forward and then the rc encoding replace the minimum only when strictly smaller, keeping the leftmost least |
| Minimizer.CanonicalLoop | experiment/sketches/minimizer.cpp:177-193 | the loop ends with the leftmost least canonical value |
| Minimizer.CanonicalScan | experiment/sketches/minimizer.cpp:171-193 | the scan of process2/process4 yields the leftmost least min(fwd, rc) and its position |
| Minimizer.Process2 | experiment/sketches/minimizer.cpp:170-198 | appends (least min(fwd, rc), index + offset) unless the last entry has that position |
| Minimizer.Process4 | experiment/sketches/minimizer.cpp:246-276 | returns the chosen index; files it under the FORWARD encoding of the chosen k-mer when previous_index is -1 or differs |
| Syncmer.SmerEnd | experiment/sketches/syncmer.cpp:90-92 | the first s-mer is always compared, then every start whose s-mer ends by end |
| Syncmer.SmerMin | experiment/sketches/syncmer.cpp:92-103 | the leftmost smallest s-mer lies among those compared |
| Syncmer.SelectedIff | experiment/sketches/syncmer.cpp:88-113 | a k-mer is selected iff its leftmost smallest s-mer is at offset 0 or at offset smerIndex |
| Syncmer.OpenSyncmer | experiment/sketches/syncmer.cpp:88-113 | with smerIndex 0: selected iff no s-mer is smaller than the first |
| Syncmer.EarlyReturnSound | experiment/sketches/syncmer.cpp:104-105 | once the running minimum is past smerIndex the k-mer cannot be selected, so the early return agrees with a full scan |
| Syncmer.Scan | experiment/sketches/syncmer.cpp:88-111 | the scan with its early return decides exactly the selection rule |
| Syncmer.Process | experiment/sketches/syncmer.cpp:87-114 | appends (32-bit encode of the k-mer, current_index) iff selected, else no change |
| Syncmer.Process3 | experiment/sketches/syncmer.cpp:133-161 | pushes current_index under the k-mer's 32-bit encoding iff selected, else no change |
| Helper.RevComp | experiment/helper.cpp:172-185 | same length, and out[i] is the complement of in[n-1-i] |
| Helper.CompFixes | experiment/helper.cpp:175-183 | only upper-case A, C, G, T change; complementing twice is the identity |
| Helper.RevCompInvolution | experiment/helper.cpp:172-185 | applying reverse_complement twice gives the original string |
| Helper.Reverse | experiment/helper.cpp:173 | std::reverse in place gives the reversed string |
| Helper.Complement | experiment/helper.cpp:174-184 | the loop replaces every byte by its complement in place |
| Helper.ReverseComplement | experiment/helper.cpp:172-185 | the string in place becomes its reverse complement |
| Helper.FindNone | experiment/helper.cpp:197 | find fails exactly when no entry has the key |
| Helper.FindEntry | experiment/helper.cpp:201 | with ascending keys, at(key) of an entry's key is that entry's list |
| Helper.Pairs | experiment/helper.cpp:202-215 | the matched pairs are in range, strictly increase in both indices, are within distance < 30, and number at most the shorter list length |
| Helper.CountMatches | experiment/helper.cpp:202-215 | the two-pointer loop counts the matched pairs, at most the shorter list length |
| Helper.PairwiseKey | experiment/helper.cpp:194-221 | the first loop's body raises TP, FP, FN and total by the key's share |
| Helper.PairwiseStats | experiment/helper.cpp:188-231 | the counters rise by the pairwise delta of the two maps |
| Helper.PairwiseTotal | experiment/helper.cpp:216-229 | each call raises total by exactly dTP + dFP + dFN |
| Helper.PairwiseGtTotal | experiment/helper.cpp:216-221 | the same for the first loop |
| Helper.PairwiseSimTotal | experiment/helper.cpp:224-229 | the same for the second loop |
| Helper.PairwiseDisjoint | experiment/helper.cpp:216-230 | with no shared key: FP is the simulated list lengths, FN the ground-truth list lengths, TP 0 |
| Helper.DisjointGt | experiment/helper.cpp:220-221 | keys only in the ground truth add their list lengths to FN and total |
| Helper.DisjointSim | experiment/helper.cpp:224-229 | keys only in the simulation add their list lengths to FP and total |
| Helper.PairsSelf | experiment/helper.cpp:202-215 | a list matched against itself pairs every index |
| Helper.PairwiseIdentical | experiment/helper.cpp:188-231 | identical maps give TP = all indices, FP = FN = 0 |
| Helper.IdenticalGt | experiment/helper.cpp:192-222 | the first loop on identical maps counts only TP |
| Helper.IdenticalSim | experiment/helper.cpp:224-230 | the second loop on identical maps changes nothing |
| Helper.HitIff | experiment/helper.cpp:266-275 | with ascending gt indices, a simulated index is TP iff some gt index lies within 30 of it, inclusive |
| Helper.IsTruePositive | experiment/helper.cpp:264-276 | the inner loop with continue/break computes the hit verdict |
| Helper.HitsPart | experiment/helper.cpp:263-283 | the per-index loop changes neither FN nor total |
| Helper.HitsPartSum | experiment/helper.cpp:277-282 | it raises TP + FP by the reference list length per simulated index |
| Helper.GlobalSim | experiment/helper.cpp:239-284 | the first loop changes neither FN nor total |
| Helper.GlobalSimEntry | experiment/helper.cpp:240-283 | one simulated entry raises the counters by its share: nothing if absent from the reference or too frequent |
| Helper.GlobalScoredKey | experiment/helper.cpp:255-283 | a scored key raises TP + FP by exactly the product of the two list lengths and leaves FN |
| Helper.ScoredOnly | experiment/helper.cpp:242-252 | the simulated entries kept are exactly those present in the reference with fewer than 256 hits, each as many times as it occurs in the simulation |
| Helper.GlobalSkipped | experiment/helper.cpp:242-252 | keys absent from the reference or with >= 256 reference hits change no counter in the first loop |
| Helper.GlobalSimTpFp | experiment/helper.cpp:239-284 | the first loop raises TP + FP by the sum of the product of the two list lengths over scored keys |
| Helper.Missed | experiment/helper.cpp:307-316 | the inner FN loop, corrected: a gt index is missed iff no simulated index lies within 30 of it, also when the loop runs off the end |
| Helper.MissedAsWritten | experiment/helper.cpp:307-316 | the inner FN loop as written: continue while the simulated index is more than 30 below, FN only on meeting one more than 30 above |
| Helper.MissAsWrittenIff | experiment/helper.cpp:307-316 | as written, a gt index counts as FN iff no simulated index lies within 30 of it AND some simulated index lies more than 30 above it |
| Helper.MissAsWrittenSkipsLateIndex | experiment/helper.cpp:306-317 | gt index 100 with simulated indices [0] is missed but not counted as FN |
| Helper.Misses | experiment/helper.cpp:306-317 | the corrected count: at most one FN per gt index |
| Helper.MissesAsWritten | experiment/helper.cpp:306-317 | the count as written: at most one FN per gt index |
| Helper.MissesAsWrittenBound | experiment/helper.cpp:306-317 | as written the loop counts no more FN than the corrected rule, and exactly as many iff every gt index without a simulated index within 30 has one more than 30 above it |
| Helper.GlobalGt | experiment/helper.cpp:286-319 | the second loop, under either reading, raises only FN, by at most the number of gt indices |
| Helper.GlobalGtAsWrittenBound | experiment/helper.cpp:286-319 | over all ground-truth entries the loop as written adds no more FN than the corrected one |
| Helper.GlobalDeltaAsWritten | experiment/helper.cpp:233-319 | the two readings give the same TP, FP and total over a run, and as written no more FN |
| Helper.GlobalUndercountExample | experiment/helper.cpp:306-317 | reference [7: [5]], ground truth [7: [100]], simulation [7: [0]]: as written 0 FN, corrected 1 FN |
| Helper.GlobalGtEntry | experiment/helper.cpp:287-318 | fails exactly when the key is missing from the reference (at throws); adds nothing for a key with 256 or more reference hits, every gt index for a key absent from the simulation, else the misses of the chosen reading |
| Helper.GlobalStatsWith | experiment/helper.cpp:233-319 | the two loops with the FN loop read by the rule: fails exactly when a ground-truth key is missing from the reference, otherwise the counters rise by that reading's global delta |
| Helper.GlobalStats | experiment/helper.cpp:233-319 | alignment_global_stats as written: fails exactly when a ground-truth key is missing from the reference; otherwise TP, FP, total and FN rise by the as-written global delta |
| Helper.GlobalStatsCorrected | experiment/helper.cpp:233-319 | the same with every gt index that has no simulated index within 30 counted as FN |
| LcpTools.ValidateExtension | lcptools.c:19-31 | returns 0 iff the name is strictly longer than a listed extension and ends in it; otherwise -1 |
| LcpTools.BareExtensionRejected | lcptools.c:25 | a name that is only an extension (".fa", ".fastq") is rejected by the strict < |
| LcpTools.UpperCaseRejected | lcptools.c:26 | the comparison is case-sensitive: "x.FA" is rejected, "x.fa" accepted |
| LcpTools.FastqAccepted | lcptools.c:20-28 | "reads.fq" and "reads.fasta" are accepted |
| LcpTools.SuffixDecides | lcptools.c:25-26 | only the suffix matters: any prefix keeps an accepted name accepted |
| LcpTools.SkipSpaces | lcptools.c:40 | strtol's leading white space: everything skipped is a space, and it stops at the end or a non-space |
| LcpTools.SkipDigits | lcptools.c:40 | strtol's digit run: everything skipped is a digit, and it stops at the end or a non-digit |
| LcpTools.Strtol | lcptools.c:40 | strtol's end pointer stays inside the string |
| LcpTools.IsNumber | lcptools.c:33-48 | returns -1, 0 or 1; -1 exactly for a NULL or empty string |
| LcpTools.SkipSpacesAt | lcptools.c:40 | the white-space prefix is unique |
| LcpTools.IsNumberSound | lcptools.c:40-47 | a string isNumber accepts is a base-10 long: spaces, an optional sign, digits to the end, inside the long range |
| LcpTools.IsNumberComplete | lcptools.c:40-47 | every base-10 long in that form is accepted |
| LcpTools.IsNumberIff | lcptools.c:33-48 | a non-empty string gets 0 iff it is a base-10 long |

## Left out

- core_compress is not part of this model. It is the parameter `compress` of `LpsStruct`, which yields the new right core. The ordering results assume a compression that keeps intervals (`PreservesPositions`).
- DCT_ITERATION_COUNT and CONSTANT_FACTOR are not part of these sources. DCT_ITERATION_COUNT is the constant `dct` (>= 1) of an `Lps`. The output buffer size `len/CONSTANT_FACTOR` is not modelled; cores are a sequence, or an array large enough.
- The alphabet tables and their initialisation (`LCP_INIT`, `LCP_INIT_FILE`, encoding.h) are not part of this model. Tables are a parameter restricted to 2-bit codes; `DnaTable`/`DnaRcTable` state the default entries.
- Labels are integers below 2^32 with the modular arithmetic written out, not `bv32`.
- Start, end, index and counter widths are unbounded naturals. No uint64/size_t wrap-around is modelled, and neither is `uint32_t middle_count` or `int core_index`.
- Memory management is left out: `malloc`/`free`, `free_lps`, the `bit_rep` frees in lps.c:37 and lps.c:354, `lps_memsize` and `core_memsize`.
- `write_lps`, `init_lps2`, `init_lps3`, `init_lps4`, `init_lps_offset` and the C++ `lps` class of lps.h are left out: they have no bodies here. So are the split/merge assertions of the tests.
- Printing is left out: `print_core`, `print_lps`, `print_usage`.
- The CLI is left out: `main` of lcptools.c, whose line 163 treats `isNumber`'s result as inverted. `process_fasta` and `done` (lcptools.c:50-131) are file I/O.
- The experiment programs' file reading, threads, timing, output and floating-point statistics (`mean`, `stdev`, `format_*`, helper.cpp:43-170) are left out.
- `findMinimizers`' gap and distance bookkeeping and its printing (famin.cpp:46-58) are left out. Only its loop and its assert are modelled.
- Minimizer.FindMinimizers: states the spacing of the positions (the assert at famin.cpp:54), not the value of each entry; each entry's value is stated by Minimizer.Process.
- Kmer.Lookup: a byte at or above 128 would index outside the 128-entry map in the source. The loops require ASCII input (`IsAscii`, `AsciiRange`), and the specification function gives such bytes code 0.
- Murmur.MurmurHash32: requires a key shorter than 2^31 bytes, since `len` is a C int.
- Murmur.Hash: core.c:20 describes the function as MurmurHash3, but the model follows the code, which is not MurmurHash3_x86_32. core.c:51 rotates h1 left by 15 where MurmurHash3 rotates it by 13, and core.c:60-67 break after cases 3 and 2 where MurmurHash3 falls through. Murmur.FallThroughHash changes only the tail and keeps the rotation by 15, so it is not MurmurHash3_x86_32 either. No lemma relates either function to MurmurHash3's published test vectors: unfolding the bitwise xor on concrete words is beyond the verifier's resource limit.
- Helper.GlobalStats and Helper.GlobalStatsCorrected: when `mapReference.at(id)` throws, the model returns None. It does not model the counter updates made before the throw.
- Helper.ScoredOnly: states which entries are kept and how many times, not that they keep the simulation's order (Helper.GlobalSkipped relates the counts of the filtered and unfiltered loops directly).
- Helper.Missed and Helper.MissedAsWritten: `gt_index + MAX_DISTANCE_THRESHOLD` is compared as an unbounded sum; the unsigned wrap near the maximum index value is not modelled.
- LpsStruct.Lps.constructor: with rev_comp set it reverses through the corrected Lcp.Reverse, so an empty text gives no cores where lps.c:6-9 reads str[SIZE_MAX] (the first Findings row).
- Helper counters are unbounded integers. They agree with the source's 64-bit counters modulo 2^64, since every update is an addition or the one subtraction `ref_indices.size() - 1`.
- LcpTools.IsNumber models `strtol` for a 64-bit `long`, base 10, the "C" locale, and ERANGE as the only errno value. A C string is its characters before the NUL.

## Findings

| source | as written | input that shows it | evidently intended | confidence | as-written member | corrected member |
|---|---|---|---|---|---|---|
| lps.c:3-18 | `right = len - 1` is a size_t, so for len == 0 it wraps to SIZE_MAX and the first swap reads str[SIZE_MAX] | an empty text passed to init_lps with rev_comp set | an empty reversal | not executed; high | Lcp.ReverseAsWritten | Lcp.Reverse |
| experiment/helper.cpp:306-317 | the FN loop counts a miss only when it meets a simulated index more than 30 beyond the gt index; running off the end counts nothing | reference [7: [5]], ground truth [7: [100]], simulation [7: [0]] | a gt index with no simulated index within 30 is one FN, as the comment at line 311 says | not executed; medium | Helper.GlobalUndercountExample | Helper.GlobalStatsCorrected |
