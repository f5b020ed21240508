/**
  Two- and three-digit IDs under both rules, and the ranges of the day 2
  tests.
 */
module GiftShopExamples {
  import opened GiftShop

  /** A two-digit ID is invalid under either rule exactly when its digits are equal. */
  lemma TwoDigits(n: nat)
    requires 10 <= n < 100
    ensures Invalid(n, false) <==> n / 10 == n % 10
    ensures Invalid(n, true) <==> n / 10 == n % 10
  {
    var s := Decimal(n);
    assert Decimal(n / 10) == [DigitChar(n / 10)];
    assert s == [DigitChar(n / 10), DigitChar(n % 10)];
    DoubledByHalves(s);
    RepetitionByLength(s);
    assert Repeat(s[..1], 2) == [s[0], s[0]];
  }

  /** A three-digit ID is always valid under the first rule, and invalid
      under the second exactly when all three digits are equal. */
  lemma ThreeDigits(n: nat)
    requires 100 <= n < 1000
    ensures !Invalid(n, false)
    ensures Invalid(n, true) <==> n / 100 == n / 10 % 10 == n % 10
  {
    var s := Decimal(n);
    assert Decimal(n / 10 / 10) == [DigitChar(n / 100)];
    assert Decimal(n / 10) == [DigitChar(n / 100), DigitChar(n / 10 % 10)];
    assert s == [DigitChar(n / 100), DigitChar(n / 10 % 10), DigitChar(n % 10)];
    DoubledByHalves(s);
    RepetitionByLength(s);
    var t := s[..1];
    assert Repeat(t, 1) == t;
    assert Repeat(t, 3) == [s[0], s[0], s[0]];
  }

  /** Summing over a range is summing over its two halves. */
  lemma {:induction false} InvalidSumSplit(start: nat, mid: nat, stop: nat, rule: bool)
    requires start <= mid <= stop
    ensures InvalidSum(start, stop, rule) == InvalidSum(start, mid, rule) + InvalidSum(mid, stop, rule)
    decreases stop - mid
  {
    if stop > mid {
      InvalidSumSplit(start, mid, stop - 1, rule);
    }
  }

  /** A range without invalid IDs sums to zero. */
  lemma {:induction false} InvalidSumNone(start: nat, stop: nat, rule: bool)
    requires forall n :: start <= n < stop ==> !Invalid(n, rule)
    ensures InvalidSum(start, stop, rule) == 0
    decreases stop - start
  {
    if stop > start {
      InvalidSumNone(start, stop - 1, rule);
    }
  }

  /** A range of one ID sums to that ID if it is invalid. */
  lemma InvalidSumOne(n: nat, rule: bool)
    ensures InvalidSum(n, n + 1, rule) == if Invalid(n, rule) then n else 0
  {
  }

  lemma ElevenToTwentyTwoHits()
    ensures forall n :: 11 <= n < 23 ==> (Invalid(n, false) <==> n == 11 || n == 22)
  {
    forall n | 11 <= n < 23
      ensures Invalid(n, false) <==> n == 11 || n == 22
    {
      TwoDigits(n);
    }
  }

  /** `11-22` under the first rule: 11 and 22. */
  lemma ElevenToTwentyTwo()
    ensures InvalidSum(11, 23, false) == 11 + 22
  {
    ElevenToTwentyTwoHits();
    InvalidSumSplit(11, 12, 23, false);
    InvalidSumSplit(12, 22, 23, false);
    InvalidSumOne(11, false);
    InvalidSumNone(12, 22, false);
    InvalidSumOne(22, false);
  }

  lemma NinetyFiveFirstRuleHits()
    ensures forall n :: 95 <= n < 116 ==> (Invalid(n, false) <==> n == 99)
  {
    forall n | 95 <= n < 116
      ensures Invalid(n, false) <==> n == 99
    {
      if n < 100 {
        TwoDigits(n);
      } else {
        ThreeDigits(n);
      }
    }
  }

  /** `95-115` under the first rule: only 99. */
  lemma NinetyFiveFirstRule()
    ensures InvalidSum(95, 116, false) == 99
  {
    NinetyFiveFirstRuleHits();
    InvalidSumNone(95, 99, false);
    InvalidSumOne(99, false);
    assert InvalidSum(95, 100, false) == 99 by {
      InvalidSumSplit(95, 99, 100, false);
    }
    InvalidSumNone(100, 116, false);
    InvalidSumSplit(95, 100, 116, false);
  }

  lemma NinetyFiveSecondRuleHits()
    ensures forall n :: 95 <= n < 116 ==> (Invalid(n, true) <==> n == 99 || n == 111)
  {
    forall n | 95 <= n < 116
      ensures Invalid(n, true) <==> n == 99 || n == 111
    {
      if n < 100 {
        TwoDigits(n);
      } else {
        ThreeDigits(n);
      }
    }
  }

  /** `95-115` under the second rule: 99 and 111. */
  lemma NinetyFiveSecondRule()
    ensures InvalidSum(95, 116, true) == 99 + 111
  {
    NinetyFiveSecondRuleHits();
    assert Invalid(99, true) && Invalid(111, true);
    InvalidSumNone(95, 99, true);
    InvalidSumOne(99, true);
    assert InvalidSum(95, 100, true) == 99 by {
      InvalidSumSplit(95, 99, 100, true);
    }
    InvalidSumNone(100, 111, true);
    InvalidSumOne(111, true);
    assert InvalidSum(95, 112, true) == 99 + 111 by {
      InvalidSumSplit(95, 100, 112, true);
      InvalidSumSplit(100, 111, 112, true);
    }
    InvalidSumNone(112, 116, true);
    InvalidSumSplit(95, 112, 116, true);
  }

  /** The input `11-22,95-115` under the first rule sums to 11 + 22 + 99. */
  lemma TwoRangesFirstRule()
    ensures Total([IdRange(11, 22), IdRange(95, 115)], false) == 11 + 22 + 99
  {
    var rs := [IdRange(11, 22), IdRange(95, 115)];
    assert Total(rs[..1], false) == 11 + 22 by {
      assert rs[..1][..0] == [];
      ElevenToTwentyTwo();
    }
    NinetyFiveFirstRule();
  }

  /** The range `11-11` includes its end: it sums to 11. */
  lemma SingleIdRange()
    ensures Total([IdRange(11, 11)], false) == 11
  {
    TwoDigits(11);
    InvalidSumOne(11, false);
    assert [IdRange(11, 11)][..0] == [];
  }

  /** A fitting pattern is followed by a second copy of itself. */
  lemma SecondBlock(s: string, len: nat)
    requires 1 <= len && 2 * len <= |s|
    ensures PatternFits(s, len) ==> s[len..2 * len] == s[..len]
  {
    if PatternFits(s, len) {
      var p, k := s[..len], |s| / len;
      var rest := Repeat(p, k - 1);
      assert s == p + rest;
      RepeatPrefix(p, k - 1);
      assert s[len..2 * len] == rest[..len];
    }
  }

  lemma DecimalOf565656()
    ensures Decimal(565656) == "565656"
  {
    assert Decimal(5) == "5";
    assert Decimal(56) == "56";
    assert Decimal(565) == "565";
    assert Decimal(5656) == "5656";
    assert Decimal(56565) == "56565";
  }

  /** `565656` is `56` three times, but its halves `565` and `656` differ. */
  lemma ThreeTimesFiftySix()
    ensures Invalid(565656, true) && !Invalid(565656, false)
  {
    DecimalOf565656();
    var s := "565656";
    assert Repeat("56", 3) == s by {
      assert Repeat("56", 1) == "56";
      assert Repeat("56", 2) == "5656";
    }
    DoubledByHalves(s);
    assert s[..3] != s[3..] by {
      assert s[..3][0] == '5' && s[3..][0] == '6';
    }
  }

  lemma DecimalOf123456()
    ensures Decimal(123456) == "123456"
  {
    assert Decimal(1) == "1";
    assert Decimal(12) == "12";
    assert Decimal(123) == "123";
    assert Decimal(1234) == "1234";
    assert Decimal(12345) == "12345";
  }

  /** No pattern length up to half of `123456` fits: each one's second
      copy starts with a different digit. */
  lemma NoFitIn123456(len: nat)
    requires 1 <= len <= 3
    ensures !PatternFits("123456", len)
  {
    var s := "123456";
    SecondBlock(s, len);
    assert s[len..2 * len][0] == s[len] && s[..len][0] == s[0];
  }

  /** `123456` has no repeating pattern of any length. */
  lemma NoPatternIn123456()
    ensures !Invalid(123456, true)
  {
    DecimalOf123456();
    var s := "123456";
    RepetitionByLength(s);
    forall len | 1 <= len <= |s| / 2
      ensures !PatternFits(s, len)
    {
      NoFitIn123456(len);
    }
  }

  lemma DecimalOf714714714()
    ensures Decimal(714714714) == "714714714"
  {
    assert Decimal(7) == "7";
    assert Decimal(71) == "71";
    assert Decimal(714) == "714";
    assert Decimal(7147) == "7147";
    assert Decimal(71471) == "71471";
    assert Decimal(714714) == "714714";
    assert Decimal(7147147) == "7147147";
    assert Decimal(71471471) == "71471471";
  }

  /** `714714714` is `714` three times; its nine digits cannot be halved. */
  lemma ThreeTimes714()
    ensures Invalid(714714714, true) && !Invalid(714714714, false)
  {
    DecimalOf714714714();
    assert Repeat("714", 3) == "714714714" by {
      assert Repeat("714", 1) == "714";
      assert Repeat("714", 2) == "714714";
    }
    OddLengthIsValid(714714714);
  }

  lemma DecimalOf5757575757()
    ensures Decimal(5757575757) == "5757575757"
  {
    assert Decimal(5) == "5";
    assert Decimal(57) == "57";
    assert Decimal(575) == "575";
    assert Decimal(5757) == "5757";
    assert Decimal(57575) == "57575";
    assert Decimal(575757) == "575757";
    assert Decimal(5757575) == "5757575";
    assert Decimal(57575757) == "57575757";
    assert Decimal(575757575) == "575757575";
  }

  /** `5757575757` is `57` five times, but its halves `57575` and `75757`
      differ. */
  lemma FiveTimes57()
    ensures Invalid(5757575757, true) && !Invalid(5757575757, false)
  {
    DecimalOf5757575757();
    var s := "5757575757";
    assert Repeat("57", 5) == s by {
      assert Repeat("57", 1) == "57";
      assert Repeat("57", 2) == "5757";
      assert Repeat("57", 3) == "575757";
      assert Repeat("57", 4) == "57575757";
    }
    DoubledByHalves(s);
    assert s[..5] != s[5..] by {
      assert s[..5][0] == '5' && s[5..][0] == '7';
    }
  }
}
