/**
 * The file names of the source's unit test of `get_regex_timestamp`, each
 * followed through the heuristic chain. Two of them only succeed after an
 * earlier heuristic fails: `20160922` is too short for the date-hour pattern,
 * and `14745602` in `random-1474560270000` is not a calendar date.
 */
module FilenameExamples {
  import opened Wrappers
  import opened Text
  import opened Paths
  import opened FilenameHeuristics
  import Civil

  const EXPECTED: Civil.DateTime := Civil.DateTime(2016, 9, 22, 16, 4, 30)

  lemma NoDigitsBefore(s: string, k: nat)
    requires k <= |s| && forall j :: 0 <= j < k ==> !IsDigit(s[j])
    ensures forall j :: 0 <= j < k ==> !DateHourAt(s, j) && !EightDigitsAt(s, j) && !MillisWindowAt(s, j)
  {
    forall j | 0 <= j < k
      ensures !DateHourAt(s, j) && !EightDigitsAt(s, j) && !MillisWindowAt(s, j)
    {
      assert !IsDigit(s[j]);
    }
  }

  lemma PairsMatchCons(s: string, p: nat, q: nat, rest: seq<nat>)
    requires Gap(s, p, q) && DigitsAt(s, q, 2) && PairsMatch(s, q + 2, rest)
    ensures PairsMatch(s, p, [q] + rest)
  {
    assert ([q] + rest)[1..] == rest;
  }

  /** Four digits at i followed by five pair groups make a date-hour match at i. */
  lemma DateHourMatchCons(s: string, i: nat, rest: seq<nat>)
    requires |rest| == 5 && DigitsAt(s, i, 4) && PairsMatch(s, i + 4, rest)
    ensures DateHourMatch(s, i, [i] + rest)
  {
    assert ([i] + rest)[1..] == rest;
  }

  /** One `\D*(\d{2})` group at q, after at most one non-digit at p, stated character by character. */
  lemma PairStep(s: string, p: nat, q: nat, rest: seq<nat>, gs: seq<nat>)
    requires q + 2 <= |s| && (q == p || (q == p + 1 && !IsDigit(s[p])))
    requires IsDigit(s[q]) && IsDigit(s[q + 1])
    requires PairsMatch(s, q + 2, rest) && gs == [q] + rest
    ensures PairsMatch(s, p, gs)
  {
    PairsMatchCons(s, p, q, rest);
  }

  /** The fourteen digits every date-hour example captures. */
  lemma CompactExpected()
    ensures ParseCompact("20160922160430") == Some(EXPECTED)
  {
    var t := "20160922160430";
    assert DecimalValue(t[0..4]) == 2016 by {
      assert t[0..4] == "2016";
      DecimalDigits("2016");
    }
    assert DecimalValue(t[4..6]) == 9 by {
      assert t[4..6] == "09";
      DecimalDigits("09");
    }
    assert DecimalValue(t[6..8]) == 22 by {
      assert t[6..8] == "22";
      DecimalDigits("22");
    }
    assert DecimalValue(t[8..10]) == 16 by {
      assert t[8..10] == "16";
      DecimalDigits("16");
    }
    assert DecimalValue(t[10..12]) == 4 by {
      assert t[10..12] == "04";
      DecimalDigits("04");
    }
    assert DecimalValue(t[12..14]) == 30 by {
      assert t[12..14] == "30";
      DecimalDigits("30");
    }
  }

  /** A date-hour match at k with no digit before it decides the whole chain. */
  lemma DateHourDecides(name: string, ext: string, k: nat, g: seq<nat>)
    requires |name| > 0 && '.' !in ext && name + "." + ext != ".."
    requires DateHourMatch(name, k, g)
    requires forall j :: 0 <= j < k ==> !IsDigit(name[j])
    requires Captured(name, g) == "20160922160430"
    ensures RegexTimestamp(MediaPath("", Some(name + "." + ext))) == Some(EXPECTED)
  {
    SplitAtDotOf(name, ext);
    NoDigitsBefore(name, k);
    DateHourLeftmost(name, k, g);
    CompactExpected();
  }

  const COMPACT: string := "IMG_20160922_160430"
  const DASHED: string := "IMG_2016-09-22-16-04-30"
  const MIXED: string := "random-IMG_2016-09-22-160430 (5)"

  /** The five pair groups of the compact example. */
  lemma CompactMatchPairs()
    ensures PairsMatch(COMPACT, 8, [8, 10, 13, 15, 17])
  {
    var s := COMPACT;
    PairStep(s, 17, 17, [], [17]);
    PairStep(s, 15, 15, [17], [15, 17]);
    PairStep(s, 12, 13, [15, 17], [13, 15, 17]);
    PairStep(s, 10, 10, [13, 15, 17], [10, 13, 15, 17]);
    PairStep(s, 8, 8, [10, 13, 15, 17], [8, 10, 13, 15, 17]);
  }

  lemma CompactMatch()
    ensures DateHourMatch(COMPACT, 4, [4, 8, 10, 13, 15, 17])
  {
    var s := COMPACT;
    CompactMatchPairs();
    assert IsDigit(s[4]) && IsDigit(s[5]) && IsDigit(s[6]) && IsDigit(s[7]);
    DateHourMatchCons(s, 4, [8, 10, 13, 15, 17]);
  }

  lemma CompactCaptured()
    ensures DateHourMatch(COMPACT, 4, [4, 8, 10, 13, 15, 17]) && Captured(COMPACT, [4, 8, 10, 13, 15, 17]) == "20160922160430"
  {
    CompactMatch();
    var s := COMPACT;
    assert s[4..8] == "2016" && s[8..10] == "09" && s[10..12] == "22";
    assert s[13..15] == "16" && s[15..17] == "04" && s[17..19] == "30";
  }

  lemma ExampleCompact()
    ensures RegexTimestamp(MediaPath("", Some("IMG_20160922_160430.jpg"))) == Some(EXPECTED)
  {
    CompactMatch();
    CompactCaptured();
    assert COMPACT + "." + "jpg" == "IMG_20160922_160430.jpg";
    DateHourDecides(COMPACT, "jpg", 4, [4, 8, 10, 13, 15, 17]);
  }

  /** The last three groups of the dashed example. */
  lemma DashedMatchTail()
    ensures PairsMatch(DASHED, 14, [15, 18, 21])
  {
    var s := DASHED;
    PairStep(s, 20, 21, [], [21]);
    PairStep(s, 17, 18, [21], [18, 21]);
    PairStep(s, 14, 15, [18, 21], [15, 18, 21]);
  }

  /** The five pair groups of the dashed example. */
  lemma DashedMatchPairs()
    ensures PairsMatch(DASHED, 8, [9, 12, 15, 18, 21])
  {
    var s := DASHED;
    DashedMatchTail();
    PairStep(s, 11, 12, [15, 18, 21], [12, 15, 18, 21]);
    PairStep(s, 8, 9, [12, 15, 18, 21], [9, 12, 15, 18, 21]);
  }

  lemma DashedMatch()
    ensures DateHourMatch(DASHED, 4, [4, 9, 12, 15, 18, 21])
  {
    var s := DASHED;
    DashedMatchPairs();
    assert IsDigit(s[4]) && IsDigit(s[5]) && IsDigit(s[6]) && IsDigit(s[7]);
    DateHourMatchCons(s, 4, [9, 12, 15, 18, 21]);
  }

  lemma DashedCaptured()
    ensures DateHourMatch(DASHED, 4, [4, 9, 12, 15, 18, 21]) && Captured(DASHED, [4, 9, 12, 15, 18, 21]) == "20160922160430"
  {
    DashedMatch();
    var s := DASHED;
    assert s[4..8] == "2016" && s[9..11] == "09" && s[12..14] == "22";
    assert s[15..17] == "16" && s[18..20] == "04" && s[21..23] == "30";
  }

  lemma ExampleDashed()
    ensures RegexTimestamp(MediaPath("", Some("IMG_2016-09-22-16-04-30.jpg"))) == Some(EXPECTED)
  {
    DashedMatch();
    DashedCaptured();
    assert DASHED + "." + "jpg" == "IMG_2016-09-22-16-04-30.jpg";
    DateHourDecides(DASHED, "jpg", 4, [4, 9, 12, 15, 18, 21]);
  }

  /** The last three groups of the mixed example. */
  lemma MixedMatchTail()
    ensures PairsMatch(MIXED, 21, [22, 24, 26])
  {
    var s := MIXED;
    PairStep(s, 26, 26, [], [26]);
    PairStep(s, 24, 24, [26], [24, 26]);
    PairStep(s, 21, 22, [24, 26], [22, 24, 26]);
  }

  /** The five pair groups of the mixed example. */
  lemma MixedMatchPairs()
    ensures PairsMatch(MIXED, 15, [16, 19, 22, 24, 26])
  {
    var s := MIXED;
    MixedMatchTail();
    PairStep(s, 18, 19, [22, 24, 26], [19, 22, 24, 26]);
    PairStep(s, 15, 16, [19, 22, 24, 26], [16, 19, 22, 24, 26]);
  }

  lemma MixedMatch()
    ensures DateHourMatch(MIXED, 11, [11, 16, 19, 22, 24, 26])
  {
    var s := MIXED;
    MixedMatchPairs();
    assert IsDigit(s[11]) && IsDigit(s[12]) && IsDigit(s[13]) && IsDigit(s[14]);
    DateHourMatchCons(s, 11, [16, 19, 22, 24, 26]);
  }

  lemma MixedCaptured()
    ensures DateHourMatch(MIXED, 11, [11, 16, 19, 22, 24, 26]) && Captured(MIXED, [11, 16, 19, 22, 24, 26]) == "20160922160430"
  {
    MixedMatch();
    var s := MIXED;
    assert s[11..15] == "2016" && s[16..18] == "09" && s[19..21] == "22";
    assert s[22..24] == "16" && s[24..26] == "04" && s[26..28] == "30";
  }

  lemma ExampleMixed()
    ensures RegexTimestamp(MediaPath("", Some("random-IMG_2016-09-22-160430 (5).jpg"))) == Some(EXPECTED)
  {
    MixedMatch();
    MixedCaptured();
    assert MIXED + "." + "jpg" == "random-IMG_2016-09-22-160430 (5).jpg";
    DateHourDecides(MIXED, "jpg", 11, [11, 16, 19, 22, 24, 26]);
  }

  const DATE_ONLY: string := "20160922"
  const MILLIS: string := "random-1474560270000"

  /** Fourteen characters are needed for the date-hour pattern and `20160922` has eight. */
  lemma DateOnlyNoDateHour()
    ensures DateHourTimestamp(DATE_ONLY).None?
  {
    var s := DATE_ONLY;
    forall j | 0 <= j <= |s| ensures !DateHourAt(s, j) {
      if DateHourAt(s, j) {
        DateHourNeedsRoom(s, j);
      }
    }
    DateHourNone(s);
  }

  lemma DateOnlyDate()
    ensures DateTimestamp(DATE_ONLY) == Some(Civil.DateTime(2016, 9, 22, 0, 0, 0))
  {
    var s := DATE_ONLY;
    assert s[0..4] == "2016";
    assert s[4..6] == "09";
    assert s[6..8] == "22";
    DateLeftmost(s, 0);
    DecimalDigits("2016");
    DecimalDigits("09");
    DecimalDigits("22");
  }

  lemma ExampleDateOnly()
    ensures RegexTimestamp(MediaPath("", Some("20160922.jpg"))) == Some(Civil.DateTime(2016, 9, 22, 0, 0, 0))
  {
    assert DATE_ONLY + "." + "jpg" == "20160922.jpg";
    SplitAtDotOf(DATE_ONLY, "jpg");
    DateOnlyNoDateHour();
    DateOnlyDate();
  }

  lemma ExpectedUnix()
    ensures Civil.TimeFromUnix(1474560270) == Some(EXPECTED)
  {
    assert Civil.ToUnix(EXPECTED) == 1474560270;
    var r := Civil.TimeFromUnix(1474560270);
    Civil.ToUnixInjective(r.value, EXPECTED);
  }

  /** `random-` holds no digit and the thirteen digits after it are too few for the date-hour pattern. */
  lemma MillisNoDateHour()
    ensures DateHourTimestamp(MILLIS).None?
  {
    var s := MILLIS;
    NoDigitsBefore(s, 7);
    forall j | 0 <= j <= |s| ensures !DateHourAt(s, j) {
      if DateHourAt(s, j) {
        DateHourNeedsRoom(s, j);
      }
    }
    DateHourNone(s);
  }

  /** The leftmost eight digits, `14745602`, name month 56. */
  lemma MillisNoDate()
    ensures DateTimestamp(MILLIS).None?
  {
    var s := MILLIS;
    NoDigitsBefore(s, 7);
    DateLeftmost(s, 7);
    assert s[11..13] == "56";
    DecimalDigits("56");
  }

  lemma MillisWindow()
    ensures MillisCapture(MILLIS) == Some(7)
  {
    NoDigitsBefore(MILLIS, 7);
    MillisLeftmost(MILLIS, 7);
  }

  lemma MillisDigits()
    ensures AllDigits(MILLIS[7..20]) && DecimalValue(MILLIS[7..20]) == 1474560270000
  {
    var digits := MILLIS[7..20];
    assert digits == "1474" + "5602" + "7000" + "0";
    DecimalDigits("1474");
    DecimalDigits("5602");
    DecimalDigits("7000");
    DecimalConcat("1474", "5602");
    DecimalConcat("1474" + "5602", "7000");
    DecimalConcat("1474" + "5602" + "7000", "0");
  }

  lemma MillisValue()
    ensures MillisTimestamp(MILLIS) == Some(EXPECTED)
  {
    MillisWindow();
    MillisDigits();
    assert 1474560270000 / 1000 == 1474560270;
    ExpectedUnix();
  }

  lemma ExampleMillis()
    ensures RegexTimestamp(MediaPath("", Some("random-1474560270000.jpg"))) == Some(EXPECTED)
  {
    assert MILLIS + "." + "jpg" == "random-1474560270000.jpg";
    SplitAtDotOf(MILLIS, "jpg");
    MillisNoDateHour();
    MillisNoDate();
    MillisValue();
  }
}
