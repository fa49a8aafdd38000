/**
 * The k-mer encoding shared by experiment/sketches/minimizer.cpp and syncmer.cpp: a
 * 128-entry map from ASCII bytes to 2-bit codes (init_map, init_rc_map) and the base-4
 * accumulation `res *= 4; res |= map[c]` in an unsigned integer of 64 (minimizer) or 32
 * (syncmer) bits.
 */
module Kmer {
  import opened Encoding

  const Modulus32: nat := 0x1_0000_0000
  const Modulus64: nat := 0x1_0000_0000_0000_0000

  /** The wrap-around of `kmer_type`: uint32_t in syncmer.cpp, uint64_t in minimizer.cpp. */
  predicate IsWidth(modulus: nat) {
    modulus == Modulus32 || modulus == Modulus64
  }

  /** A map as the sketches use one: 128 entries, each a 2-bit code. */
  predicate IsCodeMap(m: seq<int>) {
    |m| == 128 && forall c :: 0 <= c < 128 ==> 0 <= m[c] < 4
  }

  /**
   * Bytes that index the 128-entry map. A byte at or above 128 is a negative char whose
   * cast to size_t indexes far outside the map, so the loops that read it require these.
   */
  predicate IsAscii(s: seq<Byte>) {
    forall i :: 0 <= i < |s| ==> s[i] < 128
  }

  /** The bytes text[j .. j + k) lie in the text and index the 128-entry map. */
  predicate AsciiRange(text: seq<Byte>, j: nat, k: nat) {
    j + k <= |text| && forall i :: j <= i < j + k ==> text[i] < 128
  }

  /** The entry init_map writes for byte c: A, C, G, T in either case are 0, 1, 2, 3. */
  function FwdCode(c: int): Code {
    if c == Ch('T') || c == Ch('t') then 3
    else if c == Ch('G') || c == Ch('g') then 2
    else if c == Ch('C') || c == Ch('c') then 1
    else 0
  }

  /** The entry init_rc_map writes for byte c: A, C, G, T in either case are 3, 2, 1, 0. */
  function RcCode(c: int): Code {
    if c == Ch('A') || c == Ch('a') then 3
    else if c == Ch('G') || c == Ch('g') then 1
    else if c == Ch('C') || c == Ch('c') then 2
    else 0
  }

  /** init_map: every entry cleared, then the eight nucleotide letters set. */
  method InitMap(m: array<int>)
    requires m.Length == 128
    modifies m
    ensures forall c :: 0 <= c < 128 ==> m[c] == FwdCode(c)
    ensures IsCodeMap(m[..])
  {
    for i := 0 to 128
      invariant forall c :: 0 <= c < i ==> m[c] == 0
    {
      m[i] := 0;
    }
    m[Ch('A')] := 0; m[Ch('a')] := 0;
    m[Ch('T')] := 3; m[Ch('t')] := 3;
    m[Ch('G')] := 2; m[Ch('g')] := 2;
    m[Ch('C')] := 1; m[Ch('c')] := 1;
  }

  /** init_rc_map: every entry cleared, then each letter set to the code of its complement. */
  method InitRcMap(m: array<int>)
    requires m.Length == 128
    modifies m
    ensures forall c :: 0 <= c < 128 ==> m[c] == RcCode(c)
    ensures IsCodeMap(m[..])
  {
    for i := 0 to 128
      invariant forall c :: 0 <= c < i ==> m[c] == 0
    {
      m[i] := 0;
    }
    m[Ch('A')] := 3; m[Ch('a')] := 3;
    m[Ch('T')] := 0; m[Ch('t')] := 0;
    m[Ch('G')] := 1; m[Ch('g')] := 1;
    m[Ch('C')] := 2; m[Ch('c')] := 2;
  }

  /**
   * The codes of a nucleotide under the two maps add up to 3: the reverse-complement map gives
   * every letter the forward code of its complement. Every other byte is 0 under both.
   */
  lemma MapsComplement(c: int)
    ensures c in {Ch('A'), Ch('C'), Ch('G'), Ch('T'), Ch('a'), Ch('c'), Ch('g'), Ch('t')} ==> FwdCode(c) + RcCode(c) == 3
    ensures c !in {Ch('A'), Ch('C'), Ch('G'), Ch('T'), Ch('a'), Ch('c'), Ch('g'), Ch('t')} ==> FwdCode(c) == 0 && RcCode(c) == 0
    ensures FwdCode(Ch('A')) == 0 && FwdCode(Ch('C')) == 1 && FwdCode(Ch('G')) == 2 && FwdCode(Ch('T')) == 3
  {
  }

  /** 4 * x modulo a width leaves the two low bits clear, so OR-ing a code in is adding it. */
  lemma ShiftLeavesRoom(x: nat, modulus: nat)
    requires IsWidth(modulus)
    ensures (x * 4) % modulus + 3 < modulus && (x * 4) % modulus % 4 == 0
  {
    var q := modulus / 4;
    assert modulus == 4 * q;
    var d := x * 4 / modulus;
    assert x * 4 == modulus * d + (x * 4) % modulus;
    assert (x * 4) % modulus == 4 * (x - q * d);
  }

  /**
   * The entry of the 128-entry map for byte c. A byte at or above 128 indexes outside the map
   * in the source; the specification functions give it code 0, and the loops that read the
   * map require ASCII bytes.
   */
  function Lookup(m: seq<int>, c: Byte): (r: int)
    requires IsCodeMap(m)
    ensures 0 <= r < 4
  {
    if c < 128 then m[c] else 0
  }

  function Pow4(n: nat): (p: nat)
    ensures p >= 1
  {
    if n == 0 then 1 else 4 * Pow4(n - 1)
  }

  /** The exact base-4 number the codes of s spell, most significant code first. */
  function Base4(m: seq<int>, s: seq<Byte>): (v: nat)
    requires IsCodeMap(m)
    decreases |s|
  {
    if |s| == 0 then 0 else 4 * Base4(m, s[..|s| - 1]) + Lookup(m, s[|s| - 1])
  }

  /** A base-4 number of |s| digits is below 4^|s|. */
  lemma {:induction false} Base4Bound(m: seq<int>, s: seq<Byte>)
    requires IsCodeMap(m)
    ensures Base4(m, s) < Pow4(|s|)
    decreases |s|
  {
    if |s| > 0 {
      Base4Bound(m, s[..|s| - 1]);
    }
  }

  /** The codes a value of the width holds: 16 in 32 bits, 32 in 64 bits. */
  function Digits(modulus: nat): (d: nat)
    requires IsWidth(modulus)
    ensures Pow4(d) == modulus
  {
    Pow4Widths();
    if modulus == Modulus32 then 16 else 32
  }

  /**
   * The value encode computes for s: the codes of its last Digits(modulus) bytes as a base-4
   * number, since each step's shift past the width drops the oldest code. EncodeIsMod shows it
   * is the base-4 value of all of s reduced modulo the width, and EncodeSnoc that the loop
   * `res *= 4; res |= map[c]` computes it.
   */
  function Encode(m: seq<int>, s: seq<Byte>, modulus: nat): (r: nat)
    requires IsCodeMap(m) && IsWidth(modulus)
    ensures r < modulus
  {
    var d := Digits(modulus);
    var t := if |s| <= d then s else s[|s| - d..];
    Base4Bound(m, t);
    Pow4Monotone(|t|, d);
    Base4(m, t)
  }

  /** The base-4 number the codes of s spell read from its last byte back to its first. */
  function RcBase4(m: seq<int>, s: seq<Byte>): (v: nat)
    requires IsCodeMap(m)
    decreases |s|
  {
    if |s| == 0 then 0 else 4 * RcBase4(m, s[1..]) + Lookup(m, s[0])
  }

  /**
   * The value rc_encode computes for s: it reads s from its last byte back, so the codes that
   * survive the width are those of the first Digits(modulus) bytes. RcEncodeCons shows that its
   * loop computes it, and RcEncodeIsEncodeOfReversed that it is encode of the reversed s.
   */
  function RcEncode(m: seq<int>, s: seq<Byte>, modulus: nat): (r: nat)
    requires IsCodeMap(m) && IsWidth(modulus)
    ensures r < modulus
  {
    var d := Digits(modulus);
    var t := if |s| <= d then s else s[..d];
    RcBase4Bound(m, t);
    Pow4Monotone(|t|, d);
    RcBase4(m, t)
  }

  lemma {:induction false} Pow4Monotone(a: nat, b: nat)
    requires a <= b
    ensures Pow4(a) <= Pow4(b)
    decreases b
  {
    if a < b {
      Pow4Monotone(a, b - 1);
    }
  }

  lemma {:induction false} RcBase4Bound(m: seq<int>, s: seq<Byte>)
    requires IsCodeMap(m)
    ensures RcBase4(m, s) < Pow4(|s|)
    decreases |s|
  {
    if |s| > 0 {
      RcBase4Bound(m, s[1..]);
    }
  }

  /** The codes of a + b: those of a shifted past the |b| codes of b. */
  lemma {:induction false} Base4Append(m: seq<int>, a: seq<Byte>, b: seq<Byte>)
    requires IsCodeMap(m)
    ensures Base4(m, a + b) == Base4(m, a) * Pow4(|b|) + Base4(m, b)
    decreases |b|
  {
    if |b| == 0 {
      assert a + b == a;
    } else {
      var n := |b| - 1;
      var ab := a + b;
      assert ab[..|ab| - 1] == a + b[..n] && ab[|ab| - 1] == b[n];
      Base4Append(m, a, b[..n]);
      var x, p, y, c := Base4(m, a), Pow4(n), Base4(m, b[..n]), Lookup(m, b[n]);
      assert Base4(m, ab) == 4 * (x * p + y) + c;
      assert Base4(m, b) == 4 * y + c && Pow4(|b|) == 4 * p;
      ShiftProduct(x, p);
    }
  }

  /** Read backwards, the codes of a + b are those of a below those of b shifted past |a| codes. */
  lemma {:induction false} RcBase4Append(m: seq<int>, a: seq<Byte>, b: seq<Byte>)
    requires IsCodeMap(m)
    ensures RcBase4(m, a + b) == RcBase4(m, a) + Pow4(|a|) * RcBase4(m, b)
    decreases |a|
  {
    if |a| == 0 {
      assert a + b == b;
    } else {
      var ab := a + b;
      assert ab[1..] == a[1..] + b && ab[0] == a[0];
      RcBase4Append(m, a[1..], b);
      var x, p, y, c := RcBase4(m, a[1..]), Pow4(|a| - 1), RcBase4(m, b), Lookup(m, a[0]);
      assert RcBase4(m, ab) == 4 * (x + p * y) + c;
      assert RcBase4(m, a) == 4 * x + c && Pow4(|a|) == 4 * p;
      ShiftProduct(y, p);
    }
  }

  lemma ShiftProduct(x: int, p: int)
    ensures x * (4 * p) == 4 * (x * p) && (4 * p) * x == 4 * (p * x)
  {
  }

  /** encode of s is the exact base-4 value of s reduced modulo the width. */
  lemma EncodeIsMod(m: seq<int>, s: seq<Byte>, modulus: nat)
    requires IsCodeMap(m) && IsWidth(modulus)
    ensures Encode(m, s, modulus) == Base4(m, s) % modulus
  {
    var d := Digits(modulus);
    if |s| <= d {
      Base4Bound(m, s);
      Pow4Monotone(|s|, d);
      ModUnique(Base4(m, s), 0, Base4(m, s), modulus);
    } else {
      var a, b := s[..|s| - d], s[|s| - d..];
      assert s == a + b;
      Base4Append(m, a, b);
      Base4Bound(m, b);
      ModUnique(Base4(m, s), Base4(m, a), Base4(m, b), modulus);
    }
  }

  /** rc_encode of s is the exact backwards base-4 value of s reduced modulo the width. */
  lemma RcEncodeIsMod(m: seq<int>, s: seq<Byte>, modulus: nat)
    requires IsCodeMap(m) && IsWidth(modulus)
    ensures RcEncode(m, s, modulus) == RcBase4(m, s) % modulus
  {
    var d := Digits(modulus);
    if |s| <= d {
      RcBase4Bound(m, s);
      Pow4Monotone(|s|, d);
      ModUnique(RcBase4(m, s), 0, RcBase4(m, s), modulus);
    } else {
      var a, b := s[..d], s[d..];
      assert s == a + b;
      RcBase4Append(m, a, b);
      RcBase4Bound(m, a);
      ModUnique(RcBase4(m, s), RcBase4(m, b), RcBase4(m, a), modulus);
    }
  }

  /** The remainder is the unique r in [0, modulus) with x == q * modulus + r. */
  lemma ModUnique(x: int, q: int, r: int, modulus: nat)
    requires IsWidth(modulus) && 0 <= r < modulus && x == q * modulus + r
    ensures x % modulus == r
  {
    if modulus == Modulus32 {
      assert x == q * 0x1_0000_0000 + r;
    } else {
      assert x == q * 0x1_0000_0000_0000_0000 + r;
    }
  }

  /** One step of the loop on the reduced value agrees with one step on the exact one. */
  lemma EncodeStep(e: nat, b: nat, c: int, modulus: nat)
    requires IsWidth(modulus) && e == b % modulus && 0 <= c < 4
    ensures (e * 4) % modulus + c == (4 * b + c) % modulus
  {
    var q := b / modulus;
    assert b == q * modulus + e;
    ShiftLeavesRoom(e, modulus);
    var d, low := (e * 4) / modulus, (e * 4) % modulus;
    assert e * 4 == d * modulus + low;
    assert 4 * b + c == (4 * q + d) * modulus + (low + c);
    ModUnique(4 * b + c, 4 * q + d, low + c, modulus);
  }

  /**
   * encode's loop body: appending byte c shifts the value two bits left, dropping what passes
   * the width, and puts c's code in the two low bits.
   */
  lemma EncodeSnoc(m: seq<int>, s: seq<Byte>, c: Byte, modulus: nat)
    requires IsCodeMap(m) && IsWidth(modulus)
    ensures Encode(m, s + [c], modulus) == (Encode(m, s, modulus) * 4) % modulus + Lookup(m, c)
  {
    assert (s + [c])[..|s|] == s;
    EncodeIsMod(m, s, modulus);
    EncodeIsMod(m, s + [c], modulus);
    EncodeStep(Encode(m, s, modulus), Base4(m, s), Lookup(m, c), modulus);
  }

  /**
   * rc_encode's loop body, which walks from the last byte to the first: the first byte of s
   * enters last, in the two low bits.
   */
  lemma RcEncodeCons(m: seq<int>, s: seq<Byte>, modulus: nat)
    requires IsCodeMap(m) && IsWidth(modulus) && |s| > 0
    ensures RcEncode(m, s, modulus) == (RcEncode(m, s[1..], modulus) * 4) % modulus + Lookup(m, s[0])
  {
    RcEncodeIsMod(m, s, modulus);
    RcEncodeIsMod(m, s[1..], modulus);
    EncodeStep(RcEncode(m, s[1..], modulus), RcBase4(m, s[1..]), Lookup(m, s[0]), modulus);
  }

  /** A k-mer short enough for the width (16 bases in 32 bits, 32 in 64) is encoded exactly. */
  lemma EncodeExact(m: seq<int>, s: seq<Byte>, modulus: nat)
    requires IsCodeMap(m) && IsWidth(modulus)
    requires |s| <= Digits(modulus)
    ensures Encode(m, s, modulus) == Base4(m, s)
  {
  }

  lemma {:induction false} Pow4Add(a: nat, b: nat)
    ensures Pow4(a + b) == Pow4(a) * Pow4(b)
    decreases a
  {
    if a > 0 {
      Pow4Add(a - 1, b);
      assert Pow4(a + b) == 4 * Pow4(a - 1 + b);
      assert Pow4(a) * Pow4(b) == 4 * (Pow4(a - 1) * Pow4(b));
    }
  }

  lemma Pow4Widths()
    ensures Pow4(16) == Modulus32 && Pow4(32) == Modulus64
  {
    assert Pow4(2) == 16;
    Pow4Add(2, 2);
    Pow4Add(4, 4);
    Pow4Add(8, 8);
    Pow4Add(16, 16);
  }

  /** Equal base-4 values of equally long k-mers mean equal codes, position by position. */
  lemma {:induction false} Base4Injective(m: seq<int>, s: seq<Byte>, t: seq<Byte>)
    requires IsCodeMap(m) && |s| == |t|
    requires Base4(m, s) == Base4(m, t)
    ensures forall i :: 0 <= i < |s| ==> Lookup(m, s[i]) == Lookup(m, t[i])
    decreases |s|
  {
    if |s| > 0 {
      var n := |s| - 1;
      assert Lookup(m, s[n]) == Base4(m, s) % 4 && Lookup(m, t[n]) == Base4(m, t) % 4;
      assert Base4(m, s[..n]) == Base4(m, s) / 4 && Base4(m, t[..n]) == Base4(m, t) / 4;
      Base4Injective(m, s[..n], t[..n]);
      forall i | 0 <= i < |s|
        ensures Lookup(m, s[i]) == Lookup(m, t[i])
      {
        if i < n {
          assert s[..n][i] == s[i] && t[..n][i] == t[i];
        }
      }
    }
  }

  /** Reading s backwards is reading its reversal forwards. */
  lemma {:induction false} RcBase4IsBase4OfReversed(m: seq<int>, s: seq<Byte>)
    requires IsCodeMap(m)
    ensures RcBase4(m, s) == Base4(m, Reversed(s))
    decreases |s|
  {
    var r := Reversed(s);
    if |s| > 0 {
      RcBase4IsBase4OfReversed(m, s[1..]);
      assert forall t :: 0 <= t < |r| ==> r[t] == s[|s| - 1 - t];
      assert r[..|r| - 1] == Reversed(s[1..]);
    }
  }

  /** rc_encode of s is encode of the reversed s. */
  lemma RcEncodeIsEncodeOfReversed(m: seq<int>, s: seq<Byte>, modulus: nat)
    requires IsCodeMap(m) && IsWidth(modulus)
    ensures RcEncode(m, s, modulus) == Encode(m, Reversed(s), modulus)
  {
    RcBase4IsBase4OfReversed(m, s);
    RcEncodeIsMod(m, s, modulus);
    EncodeIsMod(m, Reversed(s), modulus);
  }

  /** encode over [b, e): kmer_type is uint64_t in minimizer.cpp and uint32_t in syncmer.cpp. */
  method EncodeRange(m: seq<int>, text: seq<Byte>, b: nat, e: nat, modulus: nat) returns (res: nat)
    requires IsCodeMap(m) && IsWidth(modulus) && b <= e && AsciiRange(text, b, e - b)
    ensures res == Encode(m, text[b..e], modulus)
  {
    res := 0;
    for it := b to e
      invariant res == Encode(m, text[b..it], modulus)
    {
      assert text[b..it + 1] == text[b..it] + [text[it]];
      EncodeSnoc(m, text[b..it], text[it], modulus);
      res := (res * 4) % modulus + m[text[it]];
    }
  }

  /** rc_encode over [b, e): the bytes from e - 1 down to b. */
  method RcEncodeRange(m: seq<int>, text: seq<Byte>, b: nat, e: nat, modulus: nat) returns (res: nat)
    requires IsCodeMap(m) && IsWidth(modulus) && b <= e && AsciiRange(text, b, e - b)
    ensures res == RcEncode(m, text[b..e], modulus)
  {
    res := 0;
    var it := e;
    while b < it
      invariant b <= it <= e
      invariant res == RcEncode(m, text[it..e], modulus)
    {
      it := it - 1;
      assert text[it..e][1..] == text[it + 1..e];
      RcEncodeCons(m, text[it..e], modulus);
      res := (res * 4) % modulus + m[text[it]];
    }
  }

  /** The k-mer positions a std::map<kmer_type, std::vector<uint64_t>> files under each key. */
  type KmerIndex = map<nat, seq<nat>>

  /** `index[key].push_back(v)`: operator[] creates an empty vector for a new key. */
  function Push(index: KmerIndex, key: nat, v: nat): (r: KmerIndex)
    ensures r.Keys == index.Keys + {key}
    ensures r[key] == (if key in index then index[key] else []) + [v]
    ensures forall k :: k in index && k != key ==> r[k] == index[k]
  {
    index[key := (if key in index then index[key] else []) + [v]]
  }
}
