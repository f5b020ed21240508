/**
  Invalid product IDs (day 2).  An ID is invalid when its decimal digits
  are some pattern written out several times: exactly twice under the
  first rule, at least twice under the second.  The answer is the sum of
  the invalid IDs over a list of inclusive ranges.
 */
module GiftShop {
  import opened Arith

  /** The character of decimal digit `d`. */
  function DigitChar(d: nat): char
    requires d < 10
  {
    (48 + d) as char
  }

  predicate IsDigits(s: string)
  {
    forall i :: 0 <= i < |s| ==> '0' <= s[i] <= '9'
  }

  /** `str(n)`: the decimal digits of `n`, most significant first, without
      leading zeros. */
  function Decimal(n: nat): (s: string)
    ensures |s| >= 1 && IsDigits(s)
    ensures |s| > 1 ==> s[0] != '0'
  {
    if n < 10 then [DigitChar(n)] else Decimal(n / 10) + [DigitChar(n % 10)]
  }

  /** The number a string of decimal digits denotes. */
  function Value(s: string): nat
    requires IsDigits(s)
  {
    if |s| == 0 then 0 else Value(s[..|s| - 1]) * 10 + (s[|s| - 1] as int - 48)
  }

  /** Reading back the digits of `n` gives `n`: distinct IDs have distinct
      strings. */
  lemma {:induction false} DecimalRoundTrip(n: nat)
    ensures Value(Decimal(n)) == n
  {
    if n >= 10 {
      DecimalRoundTrip(n / 10);
      var s := Decimal(n);
      assert s[..|s| - 1] == Decimal(n / 10);
    }
  }

  function Pow10(k: nat): (p: nat)
    ensures p >= 1
  {
    if k == 0 then 1 else 10 * Pow10(k - 1)
  }

  /** A number with `k` digits has a `k`-character string. */
  lemma {:induction false} DecimalLength(n: nat, k: nat)
    requires k >= 1 && Pow10(k - 1) <= n < Pow10(k)
    ensures |Decimal(n)| == k
  {
    if k > 1 {
      DecimalLength(n / 10, k - 1);
    }
  }

  /** `p * k` in the source: `k` copies of `p` written one after another. */
  function Repeat(p: string, k: nat): (r: string)
    ensures |r| == k * |p|
  {
    if k == 0 then [] else p + Repeat(p, k - 1)
  }

  /** The first rule, as stated: `s` is some string written twice. */
  ghost predicate IsDoubled(s: string)
  {
    exists t :: s == t + t
  }

  /** The second rule, as stated: `s` is a non-empty pattern written at
      least twice. */
  ghost predicate IsRepetition(s: string)
  {
    exists t, k :: |t| >= 1 && k >= 2 && s == Repeat(t, k)
  }

  /** The second rule's test for one pattern length: the length divides
      `|s|` into at least two parts, and the prefix of that length repeated
      that many times is `s`. */
  predicate PatternFits(s: string, len: nat)
  {
    1 <= len <= |s| && |s| % len == 0 && |s| / len >= 2 && Repeat(s[..len], |s| / len) == s
  }

  lemma RepeatPrefix(t: string, k: nat)
    requires k >= 1
    ensures |t| <= |Repeat(t, k)| && Repeat(t, k)[..|t|] == t
  {
    assert Repeat(t, k) == t + Repeat(t, k - 1);
  }

  /** A repetition of `t` is found at pattern length `|t|`, which is at
      most half the length. */
  lemma RepetitionFits(s: string, t: string, k: nat)
    requires |t| >= 1 && k >= 2 && s == Repeat(t, k)
    ensures |t| <= |s| / 2 && PatternFits(s, |t|)
  {
    MulDivExact(k, |t|);
    RepeatPrefix(t, k);
    MulAtLeast(|t|, k - 1);
    assert |s| == (k - 1) * |t| + |t|;
  }

  /** The second rule holds exactly when some pattern length up to half the
      string fits. */
  lemma RepetitionByLength(s: string)
    ensures IsRepetition(s) <==> exists len :: 1 <= len <= |s| / 2 && PatternFits(s, len)
  {
    if IsRepetition(s) {
      var t, k :| |t| >= 1 && k >= 2 && s == Repeat(t, k);
      RepetitionFits(s, t, k);
    }
    if exists len :: 1 <= len <= |s| / 2 && PatternFits(s, len) {
      var len :| 1 <= len <= |s| / 2 && PatternFits(s, len);
      assert s == Repeat(s[..len], |s| / len);
    }
  }

  /** The first rule holds exactly when the length is even and the two
      halves are equal. */
  lemma DoubledByHalves(s: string)
    ensures IsDoubled(s) <==> |s| % 2 == 0 && s[..|s| / 2] == s[|s| / 2..]
  {
    if IsDoubled(s) {
      var t :| s == t + t;
      assert s[..|t|] == t && s[|t|..] == t;
    }
    if |s| % 2 == 0 && s[..|s| / 2] == s[|s| / 2..] {
      assert s == s[..|s| / 2] + s[..|s| / 2];
    }
  }

  /** `is_invalid_id`: the ID is invalid under the chosen rule. */
  method IsInvalidId(num: nat, repeatingPattern: bool) returns (invalid: bool)
    ensures invalid == if repeatingPattern then IsRepetition(Decimal(num)) else IsDoubled(Decimal(num))
  {
    var s := Decimal(num);
    var length := |s|;
    if repeatingPattern {
      RepetitionByLength(s);
      for patternLen := 1 to length / 2 + 1
        invariant forall len :: 1 <= len < patternLen ==> !PatternFits(s, len)
      {
        if length % patternLen == 0 {
          var pattern := s[..patternLen];
          var repetitions := length / patternLen;
          if repetitions >= 2 && Repeat(pattern, repetitions) == s {
            assert PatternFits(s, patternLen);
            return true;
          }
        }
      }
      return false;
    } else {
      DoubledByHalves(s);
      if length % 2 != 0 {
        return false;
      }
      var mid := length / 2;
      return s[..mid] == s[mid..];
    }
  }

  /** The ID under the chosen rule, as a predicate. */
  ghost predicate Invalid(num: nat, repeatingPattern: bool)
  {
    if repeatingPattern then IsRepetition(Decimal(num)) else IsDoubled(Decimal(num))
  }

  /** A string written twice is a repetition: every ID invalid under the
      first rule is invalid under the second. */
  lemma DoubledIsRepetition(num: nat)
    ensures Invalid(num, false) ==> Invalid(num, true)
  {
    var s := Decimal(num);
    if IsDoubled(s) {
      var t :| s == t + t;
      assert Repeat(t, 2) == t + t + [];
      assert |t| >= 1;
    }
  }

  /** An ID of odd length is valid under the first rule. */
  lemma OddLengthIsValid(num: nat)
    requires |Decimal(num)| % 2 == 1
    ensures !Invalid(num, false)
  {
    DoubledByHalves(Decimal(num));
  }

  /** Single-digit IDs are valid under both rules. */
  lemma SingleDigitIsValid(num: nat)
    requires num < 10
    ensures !Invalid(num, false) && !Invalid(num, true)
  {
    var s := Decimal(num);
    DoubledByHalves(s);
    RepetitionByLength(s);
  }

  /** An inclusive range of IDs, `start-end` in the input. */
  datatype IdRange = IdRange(start: nat, end: nat)

  /** The sum of the invalid IDs `start <= num < stop`. */
  ghost function InvalidSum(start: nat, stop: nat, repeatingPattern: bool): nat
    decreases stop - start
  {
    if stop <= start then 0
    else InvalidSum(start, stop - 1, repeatingPattern) + (if Invalid(stop - 1, repeatingPattern) then stop - 1 else 0)
  }

  /** The sum of the invalid IDs over every range, each range inclusive of
      both ends. */
  ghost function Total(ranges: seq<IdRange>, repeatingPattern: bool): nat
  {
    if |ranges| == 0 then 0
    else
      var last := ranges[|ranges| - 1];
      Total(ranges[..|ranges| - 1], repeatingPattern) + InvalidSum(last.start, last.end + 1, repeatingPattern)
  }

  /** `solve_gift_shop` after the ranges are parsed: the sum of all IDs in
      all ranges that are invalid under the chosen rule. */
  method SolveGiftShop(ranges: seq<IdRange>, repeatingPattern: bool) returns (total: nat)
    ensures total == Total(ranges, repeatingPattern)
  {
    total := 0;
    for r := 0 to |ranges|
      invariant total == Total(ranges[..r], repeatingPattern)
    {
      assert ranges[..r + 1][..r] == ranges[..r];
      var start, end := ranges[r].start, ranges[r].end;
      ghost var before := total;
      var num := start;
      while num <= end
        invariant start <= num && (num <= end + 1 || num == start)
        invariant total == before + InvalidSum(start, num, repeatingPattern)
        decreases end as int + 1 - num
      {
        var invalid := IsInvalidId(num, repeatingPattern);
        if invalid {
          total := total + num;
        }
        num := num + 1;
      }
    }
    assert ranges[..|ranges|] == ranges;
  }

  /** Every ID the first rule rejects, the second rejects too, so the
      second rule's sum is never smaller. */
  lemma {:induction false} InvalidSumGrows(start: nat, stop: nat)
    ensures InvalidSum(start, stop, false) <= InvalidSum(start, stop, true)
    decreases stop - start
  {
    if stop > start {
      InvalidSumGrows(start, stop - 1);
      DoubledIsRepetition(stop - 1);
    }
  }

  lemma {:induction false} TotalGrows(ranges: seq<IdRange>)
    ensures Total(ranges, false) <= Total(ranges, true)
  {
    if |ranges| > 0 {
      TotalGrows(ranges[..|ranges| - 1]);
      var last := ranges[|ranges| - 1];
      InvalidSumGrows(last.start, last.end + 1);
    }
  }
}
