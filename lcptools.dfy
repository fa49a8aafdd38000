/**
 * lcptools.c: the command-line checks on the input file name and on the numeric arguments.
 * A C string is the sequence of its characters before the terminating NUL; a NULL pointer
 * is None.
 */
module LcpTools {
  import opened Wrappers

  // ---------------------------------------------------------------------------------------
  // validate_extension (lcptools.c:19-31)

  /** `valid_extensions`, in the order the loop tries them. */
  const ValidExtensions: seq<string> := [".fasta", ".fa", ".fastq", ".fq"]

  predicate EndsWith(name: string, ext: string) {
    |ext| <= |name| && name[|name| - |ext|..] == ext
  }

  /** The name is strictly longer than a listed extension and ends in it, letter for letter. */
  predicate HasValidExtension(name: string) {
    exists k :: 0 <= k < |ValidExtensions| &&
      |ValidExtensions[k]| < |name| && EndsWith(name, ValidExtensions[k])
  }

  /** 0 when the name carries one of the listed extensions, -1 otherwise. */
  method ValidateExtension(name: string) returns (r: int)
    ensures r == 0 || r == -1
    ensures r == 0 <==> HasValidExtension(name)
  {
    var i := 0;
    while i < 4
      invariant 0 <= i <= 4
      invariant forall k :: 0 <= k < i ==>
        !(|ValidExtensions[k]| < |name| && EndsWith(name, ValidExtensions[k]))
    {
      var ext := ValidExtensions[i];
      if |ext| < |name| && name[|name| - |ext|..] == ext {
        return 0;
      }
      i := i + 1;
    }
    return -1;
  }

  /** A name that is nothing but an extension is rejected: the length test is strict. */
  lemma BareExtensionRejected()
    ensures !HasValidExtension(".fa") && !HasValidExtension(".fastq")
  {
    assert !EndsWith(".fa", ".fasta") && !EndsWith(".fa", ".fastq");
    assert !EndsWith(".fastq", ".fq") && !EndsWith(".fastq", ".fa") && !EndsWith(".fastq", ".fasta") by {
      assert ".fastq"[3..] == "stq" && ".fastq"[4..] == "tq" && ".fastq"[0..] == ".fastq";
    }
  }

  /** The comparison is case-sensitive: upper-case extensions are rejected. */
  lemma UpperCaseRejected()
    ensures !HasValidExtension("x.FA") && HasValidExtension("x.fa")
  {
    assert EndsWith("x.fa", ValidExtensions[1]) by {
      assert "x.fa"[1..] == ".fa";
    }
    assert !EndsWith("x.FA", ".fa") by {
      assert "x.FA"[1..] == ".FA";
    }
    assert !EndsWith("x.FA", ".fq") by {
      assert "x.FA"[1..] == ".FA";
    }
  }

  lemma FastqAccepted()
    ensures HasValidExtension("reads.fq") && HasValidExtension("reads.fasta")
  {
    assert EndsWith("reads.fq", ValidExtensions[3]) by {
      assert "reads.fq"[5..] == ".fq";
    }
    assert EndsWith("reads.fasta", ValidExtensions[0]) by {
      assert "reads.fasta"[5..] == ".fasta";
    }
  }

  /** Only the suffix matters: whatever precedes an accepted name, it stays accepted. */
  lemma SuffixDecides(prefix: string, name: string)
    requires HasValidExtension(name)
    ensures HasValidExtension(prefix + name)
  {
    var k :| 0 <= k < |ValidExtensions| &&
      |ValidExtensions[k]| < |name| && EndsWith(name, ValidExtensions[k]);
    var ext := ValidExtensions[k];
    var full := prefix + name;
    assert full[|full| - |ext|..] == name[|name| - |ext|..];
  }

  // ---------------------------------------------------------------------------------------
  // isNumber (lcptools.c:33-48) and the strtol it calls

  /** `isspace` in the "C" locale. */
  predicate IsSpace(c: char) {
    c == ' ' || c == '\t' || c == '\n' || c == '\U{000B}' || c == '\U{000C}' || c == '\r'
  }

  predicate IsDigit(c: char) {
    '0' as int <= c as int <= '9' as int
  }

  predicate IsSign(c: char) {
    c == '+' || c == '-'
  }

  /** LONG_MAX and LONG_MIN of a 64-bit `long`. */
  const LongMax := 0x7FFF_FFFF_FFFF_FFFF
  const LongMin := -0x8000_0000_0000_0000

  /** The first position at or after i that does not hold white space. */
  function SkipSpaces(s: string, i: nat): (j: nat)
    requires i <= |s|
    ensures i <= j <= |s|
    ensures forall t :: i <= t < j ==> IsSpace(s[t])
    ensures j == |s| || !IsSpace(s[j])
    decreases |s| - i
  {
    if i < |s| && IsSpace(s[i]) then SkipSpaces(s, i + 1) else i
  }

  /** The first position at or after i that does not hold a decimal digit. */
  function SkipDigits(s: string, i: nat): (j: nat)
    requires i <= |s|
    ensures i <= j <= |s|
    ensures forall t :: i <= t < j ==> IsDigit(s[t])
    ensures j == |s| || !IsDigit(s[j])
    decreases |s| - i
  {
    if i < |s| && IsDigit(s[i]) then SkipDigits(s, i + 1) else i
  }

  /** The value of a run of decimal digits. */
  function DecimalValue(d: string): nat
    requires forall t :: 0 <= t < |d| ==> IsDigit(d[t])
  {
    if |d| == 0 then 0
    else
      assert IsDigit(d[|d| - 1]);
      10 * DecimalValue(d[..|d| - 1]) + (d[|d| - 1] as int - '0' as int)
  }

  /** Where strtol stops reading (`*end`), and whether it reports ERANGE. */
  datatype Conversion = Conversion(end: nat, overflow: bool)

  /** Whether the signed value of the digits s[j..k] lies outside the range of a long. */
  predicate OutOfRange(s: string, j: nat, k: nat, negative: bool)
    requires j <= k <= |s|
    requires forall t :: j <= t < k ==> IsDigit(s[t])
  {
    var v: int := DecimalValue(s[j..k]);
    var value := if negative then -v else v;
    value < LongMin || LongMax < value
  }

  /**
   * `strtol(str, &end, 10)` (section 7.22.1.4 of ISO/IEC 9899:2011): white space, an optional
   * sign, then the longest run of digits; with no digit it converts nothing and end is str.
   */
  function Strtol(s: string): (c: Conversion)
    ensures c.end <= |s|
  {
    var i := SkipSpaces(s, 0);
    var j := if i < |s| && IsSign(s[i]) then i + 1 else i;
    var k := SkipDigits(s, j);
    if k == j then Conversion(0, false)
    else Conversion(k, OutOfRange(s, j, k, j == i + 1 && s[i] == '-'))
  }

  /** -1 for a NULL or empty string; 0 when strtol reads all of it without ERANGE; else 1. */
  function IsNumber(str: Option<string>): (r: int)
    ensures r == -1 || r == 0 || r == 1
    ensures r == -1 <==> str == None || str.value == []
  {
    match str
    case None => -1
    case Some(s) =>
      if |s| == 0 then -1
      else
        var c := Strtol(s);
        if c.overflow || c.end != |s| then 1 else 0
  }

  /**
   * The split of a base-10 long: white space before i, an optional sign at i, then digits
   * from j up to the end, with a value between LONG_MIN and LONG_MAX.
   */
  predicate DecimalLongAt(s: string, i: nat, j: nat) {
    && i <= j < |s|
    && (forall t :: 0 <= t < i ==> IsSpace(s[t]))
    && (j == i || (j == i + 1 && IsSign(s[i])))
    && (forall t :: j <= t < |s| ==> IsDigit(s[t]))
    && !OutOfRange(s, j, |s|, j == i + 1 && s[i] == '-')
  }

  /** A base-10 long: white space, an optional sign, at least one digit, nothing after. */
  ghost predicate IsDecimalLong(s: string) {
    exists i: nat, j: nat :: DecimalLongAt(s, i, j)
  }

  /** The first position whose character is not white space is unique. */
  lemma SkipSpacesAt(s: string, i: nat)
    requires i <= |s|
    requires forall t :: 0 <= t < i ==> IsSpace(s[t])
    requires i == |s| || !IsSpace(s[i])
    ensures SkipSpaces(s, 0) == i
  {
  }

  /** What isNumber accepts is a base-10 long. */
  lemma IsNumberSound(s: string)
    requires s != [] && IsNumber(Some(s)) == 0
    ensures IsDecimalLong(s)
  {
    var i := SkipSpaces(s, 0);
    var j := if i < |s| && IsSign(s[i]) then i + 1 else i;
    assert DecimalLongAt(s, i, j);
  }

  /** Every base-10 long is accepted by isNumber. */
  lemma IsNumberComplete(s: string, i: nat, j: nat)
    requires DecimalLongAt(s, i, j)
    ensures IsNumber(Some(s)) == 0
  {
    SkipSpacesAt(s, i);
  }

  /** isNumber accepts a non-empty string exactly when it is a base-10 long. */
  lemma IsNumberIff(s: string)
    requires s != []
    ensures IsNumber(Some(s)) == 0 <==> IsDecimalLong(s)
  {
    if IsNumber(Some(s)) == 0 {
      IsNumberSound(s);
    }
    if IsDecimalLong(s) {
      var i: nat, j: nat :| DecimalLongAt(s, i, j);
      IsNumberComplete(s, i, j);
    }
  }
}
