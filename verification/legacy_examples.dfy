/**
 * The older heuristics on the millisecond example of the newer unit test:
 * `random-1474560270000`. Reading nine of the thirteen digits as seconds
 * lands in 1974, where the newer scan reads 2016-09-22 16:04:30.
 */
module LegacyExamples {
  import opened Wrappers
  import opened Text
  import Search
  import Civil
  import FilenameHeuristics
  import FilenameExamples
  import LegacyHeuristics

  const AS_WRITTEN: Civil.DateTime := Civil.DateTime(1974, 9, 3, 16, 0, 27)

  /** No match of the eight-any-six pattern: the name holds only one run of 13 digits after 7 non-digits. */
  lemma MillisNoSplitDateHour()
    ensures LegacyHeuristics.SplitDateHourTimestamp(FilenameExamples.MILLIS).None?
  {
    var s := FilenameExamples.MILLIS;
    forall j | 0 <= j <= |s| ensures !LegacyHeuristics.SplitDateHourAt(s, j) {
      if j < 7 {
        assert !IsDigit(s[j]);
      }
    }
    var ok := (j: nat) => LegacyHeuristics.SplitDateHourAt(s, j);
    assert Search.Leftmost(|s| + 1, ok, 0).None?;
  }

  lemma MillisNoDashed()
    ensures LegacyHeuristics.DashedTimestamp(FilenameExamples.MILLIS).None?
  {
    var s := FilenameExamples.MILLIS;
    forall j | 0 <= j <= |s| ensures !LegacyHeuristics.DashedAt(s, j) {
      if j < 7 {
        assert !IsDigit(s[j]);
      }
    }
    var ok := (j: nat) => LegacyHeuristics.DashedAt(s, j);
    assert Search.Leftmost(|s| + 1, ok, 0).None?;
  }

  /** The leftmost eight digits of the example start at 7, and its month digits read 56. */
  lemma MillisEightDigits()
    ensures FilenameHeuristics.EightDigitsAt(FilenameExamples.MILLIS, 7)
    ensures forall j :: 0 <= j < 7 ==> !FilenameHeuristics.EightDigitsAt(FilenameExamples.MILLIS, j)
    ensures LegacyHeuristics.Num(FilenameExamples.MILLIS, 11, 2) == 56
  {
    var s := FilenameExamples.MILLIS;
    FilenameExamples.NoDigitsBefore(s, 7);
    assert FilenameHeuristics.EightDigitsAt(s, 7);
    assert s[11..13] == "56";
    DecimalDigits("56");
  }

  /** `14745602` names month 56 for chrono as well. */
  lemma MillisNoMidnight()
    ensures LegacyHeuristics.MidnightTimestamp(FilenameExamples.MILLIS).None?
  {
    MillisEightDigits();
    LegacyHeuristics.MidnightLeftmost(FilenameExamples.MILLIS, 7);
  }

  lemma NineDigits()
    ensures LegacyHeuristics.Num(FilenameExamples.MILLIS, 7, 9) == 147456027
  {
    assert FilenameExamples.MILLIS[7..16] == "147456027";
    assert DecimalValue("14745602") == 14745602 by {
      DecimalDigits("1474");
      DecimalDigits("5602");
      DecimalConcat("1474", "5602");
      assert Pow10(4) == 10000;
      assert "1474" + "5602" == "14745602";
    }
    assert DecimalValue("147456027") == 147456027 by {
      assert DecimalValue("7") == 7 by {
        assert "7"[..0] == [];
      }
      DecimalConcat("14745602", "7");
      assert Pow10(1) == 10;
      assert "14745602" + "7" == "147456027";
    }
  }

  lemma AsWrittenUnix()
    ensures Civil.ChronoFromUnix(147456027) == Some(AS_WRITTEN)
  {
    assert Civil.ToUnix(AS_WRITTEN) == 147456027;
    Civil.TimeRangeBounds();
    Civil.ChronoCoversTimeRange(147456027);
    var r := Civil.TimeFromUnix(147456027);
    Civil.ToUnixInjective(r.value, AS_WRITTEN);
  }

  lemma MillisTruncated()
    ensures LegacyHeuristics.TruncatedMillisTimestamp(FilenameExamples.MILLIS) == Some(AS_WRITTEN)
  {
    FilenameExamples.MillisWindow();
    NineDigits();
    AsWrittenUnix();
  }

  /**
   * The discrepancy: on the same name the older chain yields 1974-09-03
   * 16:00:27, the newer one 2016-09-22 16:04:30.
   */
  lemma LegacyMillisExample()
    ensures LegacyHeuristics.LegacyRegexTimestamp(FilenameExamples.MILLIS) == Some(AS_WRITTEN)
    ensures FilenameHeuristics.MillisTimestamp(FilenameExamples.MILLIS) == Some(FilenameExamples.EXPECTED)
    ensures AS_WRITTEN != FilenameExamples.EXPECTED
  {
    MillisNoSplitDateHour();
    MillisNoDashed();
    MillisNoMidnight();
    MillisTruncated();
    FilenameExamples.MillisValue();
  }
}
