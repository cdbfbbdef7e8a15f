/**
 * Small value types and text helpers shared by the breakpoint-calling model:
 * failure-carrying results, Java's decimal rendering of integers (with the
 * parser that inverts it), substring search, the comparisons Java performs on
 * an int-by-int double quotient, and htsjdk's nucleotide complement.
 */
module Common {

  datatype Option<+T> = None | Some(value: T)

  /** A value, or the message of the exception the Java code throws instead. */
  datatype Result<+T> = Success(value: T) | Failure(error: string)

  // ---------------------------------------------------------------------------
  // Decimal rendering of integers, as `"" + n` / Integer.toString does it.
  // ---------------------------------------------------------------------------

  predicate IsDigit(c: char) {
    '0' <= c <= '9'
  }

  predicate AllDigits(s: string) {
    forall i :: 0 <= i < |s| ==> IsDigit(s[i])
  }

  function DigitChar(d: nat): (c: char)
    requires d < 10
    ensures IsDigit(c)
  {
    (48 + d) as char
  }

  function DigitValue(c: char): (d: nat)
    requires IsDigit(c)
    ensures d < 10
  {
    c as int - 48
  }

  /** Decimal digits of a natural number, most significant first, no leading zeros. */
  function NatToString(n: nat): (s: string)
    ensures 1 <= |s| && AllDigits(s)
    ensures |s| > 1 ==> s[0] != '0'
  {
    if n < 10 then [DigitChar(n)] else NatToString(n / 10) + [DigitChar(n % 10)]
  }

  /** Java's decimal rendering of an int: a '-' sign, then the digits of the magnitude. */
  function IntToString(n: int): string
  {
    if n < 0 then "-" + NatToString(-n) else NatToString(n)
  }

  /** Value of a run of decimal digits. */
  function DigitsValue(s: string): nat
    requires AllDigits(s)
  {
    if s == [] then 0 else DigitsValue(s[..|s| - 1]) * 10 + DigitValue(s[|s| - 1])
  }

  /** Reads back an optionally negative decimal integer; None for anything else. */
  function ParseInt(s: string): Option<int>
  {
    if 1 <= |s| && AllDigits(s) then Some(DigitsValue(s))
    else if 2 <= |s| && s[0] == '-' && AllDigits(s[1..]) then Some(0 - DigitsValue(s[1..]))
    else None
  }

  lemma {:induction false} NatToStringRoundTrip(n: nat)
    ensures DigitsValue(NatToString(n)) == n
  {
    if n >= 10 {
      var s := NatToString(n / 10);
      var t := s + [DigitChar(n % 10)];
      assert t[..|t| - 1] == s;
      NatToStringRoundTrip(n / 10);
    }
  }

  /** ParseInt inverts IntToString on every int. */
  lemma IntToStringRoundTrip(n: int)
    ensures ParseInt(IntToString(n)) == Some(n)
  {
    if n < 0 {
      var s := "-" + NatToString(-n);
      assert s[1..] == NatToString(-n);
      assert !IsDigit(s[0]);
      NatToStringRoundTrip(-n);
    } else {
      NatToStringRoundTrip(n);
    }
  }

  /** Rendered integers carry no characters other than digits and a leading '-'. */
  lemma IntToStringChars(n: int, c: char)
    requires c in IntToString(n)
    ensures IsDigit(c) || c == '-'
  {
    var s := IntToString(n);
    var i :| 0 <= i < |s| && s[i] == c;
    if n < 0 && i > 0 {
      assert s[i] == NatToString(-n)[i - 1];
    }
  }

  // ---------------------------------------------------------------------------
  // Substring search (String.contains).
  // ---------------------------------------------------------------------------

  predicate OccursAt(s: string, t: string, i: int) {
    0 <= i && i + |t| <= |s| && s[i..i + |t|] == t
  }

  /** Java's `s.contains(t)`. */
  function Contains(s: string, t: string): (r: bool)
    ensures r <==> exists i :: OccursAt(s, t, i)
  {
    if |s| < |t| then
      false
    else if s[..|t|] == t then
      assert OccursAt(s, t, 0);
      true
    else
      var r := Contains(s[1..], t);
      if r then
        var i :| OccursAt(s[1..], t, i);
        assert s[1..][i..i + |t|] == s[i + 1..i + 1 + |t|];
        assert OccursAt(s, t, i + 1);
        r
      else
        assert !OccursAt(s, t, 0);
        assert forall i :: 1 <= i && OccursAt(s, t, i) ==> OccursAt(s[1..], t, i - 1) by {
          forall i | 1 <= i && OccursAt(s, t, i) ensures OccursAt(s[1..], t, i - 1) {
            assert s[1..][i - 1..i - 1 + |t|] == s[i..i + |t|];
          }
        }
        r
  }

  // ---------------------------------------------------------------------------
  // Java double arithmetic on an int quotient, compared with a finite threshold.
  // Rounding is not modelled; the zero-denominator cases follow IEEE 754
  // (x/0 is +Infinity for x > 0, -Infinity for x < 0 and NaN for x == 0, and
  // every comparison with NaN is false).
  // ---------------------------------------------------------------------------

  /** `num / (double) den < t`. */
  predicate QuotientBelow(num: int, den: int, t: real) {
    if den != 0 then (num as real) / (den as real) < t else num < 0
  }

  /** `num / (double) den >= t`. */
  predicate QuotientAtLeast(num: int, den: int, t: real) {
    if den != 0 then (num as real) / (den as real) >= t else num > 0
  }

  /** For a positive denominator the quotient tests are the cross-multiplied ones. */
  lemma QuotientPositiveDenominator(num: int, den: int, t: real)
    requires den > 0
    ensures QuotientBelow(num, den, t) <==> (num as real) < t * (den as real)
    ensures QuotientAtLeast(num, den, t) <==> (num as real) >= t * (den as real)
  {
    var q := (num as real) / (den as real);
    assert q * (den as real) == num as real;
    if q < t {
      assert q * (den as real) < t * (den as real);
    } else {
      assert q * (den as real) >= t * (den as real);
    }
  }

  // ---------------------------------------------------------------------------
  // Nucleotide characters (htsjdk SequenceUtil).
  // ---------------------------------------------------------------------------

  /** SequenceUtil.isValidBase: one of ACGT in either case. */
  predicate IsValidBase(c: char) {
    c in "ACGTacgt"
  }

  /** SequenceUtil.complement: swaps A/T and C/G in either case, leaves anything else alone. */
  function ComplementChar(c: char): (r: char)
    ensures IsValidBase(c) <==> IsValidBase(r)
  {
    match c
    case 'A' => 'T' case 'T' => 'A' case 'C' => 'G' case 'G' => 'C'
    case 'a' => 't' case 't' => 'a' case 'c' => 'g' case 'g' => 'c'
    case _ => c
  }

  lemma ComplementCharInvolution(c: char)
    ensures ComplementChar(ComplementChar(c)) == c
  {
  }

  /** SequenceUtil.reverseComplement on a string. */
  function ReverseComplementString(s: string): (r: string)
    ensures |r| == |s|
    ensures forall i :: 0 <= i < |s| ==> r[i] == ComplementChar(s[|s| - 1 - i])
  {
    seq(|s|, i requires 0 <= i < |s| => ComplementChar(s[|s| - 1 - i]))
  }

  lemma ReverseComplementStringInvolution(s: string)
    ensures ReverseComplementString(ReverseComplementString(s)) == s
  {
  }

  /** A reverse complement only holds characters that are themselves complements of the input's. */
  lemma ReverseComplementStringChars(s: string, c: char)
    requires c in ReverseComplementString(s)
    ensures ComplementChar(c) in s
  {
    var r := ReverseComplementString(s);
    var i :| 0 <= i < |r| && r[i] == c;
    assert s[|s| - 1 - i] == ComplementChar(c);
  }
}
