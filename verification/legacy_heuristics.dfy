/**
 * The file-name heuristics of the older `DataScan::get_regex_timestamp`. Its
 * four regexes use ASCII digit classes and fixed separators; dates are built
 * by chrono. Each is a scanner searched from the left, as in
 * `FilenameHeuristics`.
 */
module LegacyHeuristics {
  import opened Wrappers
  import opened Text
  import opened Search
  import Civil
  import FilenameHeuristics

  /** The value of the n digits at k. */
  function Num(s: string, k: nat, n: nat): (v: nat)
    requires FilenameHeuristics.DigitsAt(s, k, n)
    ensures v < Pow10(n)
  {
    FilenameHeuristics.DigitsSlice(s, k, n, 0, n);
    DecimalValueBound(s[k..k + n]);
    DecimalValue(s[k..k + n])
  }

  // ---------------------------------------------------------------------
  // DATE_HOUR_PATTERN: ([0-9]{8}).([0-9]{6})

  /** Eight digits, any character but a line feed, six digits. */
  predicate SplitDateHourAt(s: string, k: nat) {
    FilenameHeuristics.DigitsAt(s, k, 8) && k + 8 < |s| && s[k + 8] != '\n'
    && FilenameHeuristics.DigitsAt(s, k + 9, 6)
  }

  /** First heuristic: date and time of the leftmost match read as `%Y%m%d%H%M%S`. */
  function SplitDateHourTimestamp(s: string): (r: Option<Civil.DateTime>)
    ensures r.Some? ==> Civil.Valid(r.value)
  {
    var ok := (k: nat) => SplitDateHourAt(s, k);
    match Leftmost(|s| + 1, ok, 0)
    case None => None
    case Some(k) =>
      assert ok(k);
      Civil.ChronoDateTime(Num(s, k, 4), Num(s, k + 4, 2), Num(s, k + 6, 2),
                           Num(s, k + 9, 2), Num(s, k + 11, 2), Num(s, k + 13, 2))
  }

  lemma SplitDateHourLeftmost(s: string, k: nat)
    requires SplitDateHourAt(s, k)
    requires forall j :: 0 <= j < k ==> !SplitDateHourAt(s, j)
    ensures SplitDateHourTimestamp(s) ==
      Civil.ChronoDateTime(Num(s, k, 4), Num(s, k + 4, 2), Num(s, k + 6, 2),
                           Num(s, k + 9, 2), Num(s, k + 11, 2), Num(s, k + 13, 2))
  {
    var ok := (j: nat) => SplitDateHourAt(s, j);
    assert ok(k);
    assert Leftmost(|s| + 1, ok, 0) == Some(k);
  }

  // ---------------------------------------------------------------------
  // DATE_HOUR_STRIP_PATTERN: ([0-9]{4}-[0-9]{2}-[0-9]{2}-[0-9]{2}-[0-9]{2}-[0-9]{2})

  const DASH: char := '-'

  /** `YYYY-MM-DD-HH-MM-SS` at k. */
  predicate DashedAt(s: string, k: nat) {
    k + 19 <= |s| && FilenameHeuristics.DigitsAt(s, k, 4)
    && s[k + 4] == DASH && FilenameHeuristics.DigitsAt(s, k + 5, 2)
    && s[k + 7] == DASH && FilenameHeuristics.DigitsAt(s, k + 8, 2)
    && s[k + 10] == DASH && FilenameHeuristics.DigitsAt(s, k + 11, 2)
    && s[k + 13] == DASH && FilenameHeuristics.DigitsAt(s, k + 14, 2)
    && s[k + 16] == DASH && FilenameHeuristics.DigitsAt(s, k + 17, 2)
  }

  /** Second heuristic: the leftmost dashed match read as `%Y-%m-%d-%H-%M-%S`. */
  function DashedTimestamp(s: string): (r: Option<Civil.DateTime>)
    ensures r.Some? ==> Civil.Valid(r.value)
  {
    var ok := (k: nat) => DashedAt(s, k);
    match Leftmost(|s| + 1, ok, 0)
    case None => None
    case Some(k) =>
      assert ok(k);
      Civil.ChronoDateTime(Num(s, k, 4), Num(s, k + 5, 2), Num(s, k + 8, 2),
                           Num(s, k + 11, 2), Num(s, k + 14, 2), Num(s, k + 17, 2))
  }

  lemma DashedLeftmost(s: string, k: nat)
    requires DashedAt(s, k)
    requires forall j :: 0 <= j < k ==> !DashedAt(s, j)
    ensures DashedTimestamp(s) ==
      Civil.ChronoDateTime(Num(s, k, 4), Num(s, k + 5, 2), Num(s, k + 8, 2),
                           Num(s, k + 11, 2), Num(s, k + 14, 2), Num(s, k + 17, 2))
  {
    var ok := (j: nat) => DashedAt(s, j);
    assert ok(k);
    assert Leftmost(|s| + 1, ok, 0) == Some(k);
  }

  // ---------------------------------------------------------------------
  // DATE_PATTERN: ([0-9]{8})

  /** Third heuristic: the leftmost eight digits plus ` 000000`, read as `%Y%m%d %H%M%S`. */
  function MidnightTimestamp(s: string): (r: Option<Civil.DateTime>)
    ensures r.Some? ==> Civil.Valid(r.value) && r.value.hour == 0 && r.value.minute == 0 && r.value.second == 0
  {
    var ok := (k: nat) => FilenameHeuristics.EightDigitsAt(s, k);
    match Leftmost(|s| + 1, ok, 0)
    case None => None
    case Some(k) =>
      assert ok(k);
      Civil.ChronoDateTime(Num(s, k, 4), Num(s, k + 4, 2), Num(s, k + 6, 2), 0, 0, 0)
  }

  lemma MidnightLeftmost(s: string, k: nat)
    requires FilenameHeuristics.EightDigitsAt(s, k)
    requires forall j :: 0 <= j < k ==> !FilenameHeuristics.EightDigitsAt(s, j)
    ensures MidnightTimestamp(s) == Civil.ChronoDateTime(Num(s, k, 4), Num(s, k + 4, 2), Num(s, k + 6, 2), 0, 0, 0)
  {
    var ok := (j: nat) => FilenameHeuristics.EightDigitsAt(s, j);
    assert ok(k);
    assert Leftmost(|s| + 1, ok, 0) == Some(k);
  }

  // ---------------------------------------------------------------------
  // MILLIS_PATTERN: .*([0-9]{13})

  /**
   * Fourth heuristic, as written: the first nine of the thirteen captured
   * digits are parsed with `%s`, as seconds since the epoch.
   */
  function TruncatedMillisTimestamp(s: string): (r: Option<Civil.DateTime>)
    ensures r.Some? ==> Civil.Valid(r.value)
    ensures r.Some? ==> FilenameHeuristics.MillisCapture(s).Some?
    ensures r.Some? ==> Civil.ToUnix(r.value) == Num(s, FilenameHeuristics.MillisCapture(s).value, 9)
  {
    match FilenameHeuristics.MillisCapture(s)
    case None => None
    case Some(c) => Civil.ChronoFromUnix(Num(s, c, 9))
  }

  /** Nine digits are always within chrono's range, so the fourth heuristic fails only without a 13-digit run. */
  lemma TruncatedMillisAlwaysConverts(s: string)
    ensures TruncatedMillisTimestamp(s).Some? <==> FilenameHeuristics.MillisCapture(s).Some?
  {
    if FilenameHeuristics.MillisCapture(s).Some? {
      var c := FilenameHeuristics.MillisCapture(s).value;
      var v := Num(s, c, 9);
      assert Pow10(9) == 1_000_000_000;
      Civil.TimeRangeBounds();
      Civil.ChronoCoversTimeRange(v);
    }
  }

  /**
   * What the fourth heuristic reads is a tenth of the seconds the millisecond
   * value stands for: the last four digits are dropped, not three.
   */
  lemma TruncatedMillisIsTenth(s: string)
    requires FilenameHeuristics.MillisCapture(s).Some?
    ensures var c := FilenameHeuristics.MillisCapture(s).value;
      AllDigits(s[c..c + 13]) &&
      Num(s, c, 9) == (DecimalValue(s[c..c + 13]) / 1000) / 10
  {
    var c := FilenameHeuristics.MillisCapture(s).value;
    var head, tail := s[c..c + 9], s[c + 9..c + 13];
    FilenameHeuristics.DigitsSlice(s, c, 13, 0, 9);
    FilenameHeuristics.DigitsSlice(s, c, 13, 9, 13);
    assert s[c..c + 13] == head + tail;
    DecimalConcat(head, tail);
    DecimalValueBound(tail);
    assert Pow10(4) == 10000;
    var h, t := DecimalValue(head), DecimalValue(tail);
    assert DecimalValue(s[c..c + 13]) == h * 10000 + t;
    assert (h * 10000 + t) / 1000 == h * 10 + t / 1000;
    assert (h * 10 + t / 1000) / 10 == h;
  }

  /** `get_regex_timestamp` of the older scan: the four heuristics in order on the stem. */
  function LegacyRegexTimestamp(name: string): (r: Option<Civil.DateTime>)
    ensures r.Some? ==> Civil.Valid(r.value)
    ensures SplitDateHourTimestamp(name).Some? ==> r == SplitDateHourTimestamp(name)
    ensures SplitDateHourTimestamp(name).None? && DashedTimestamp(name).Some? ==> r == DashedTimestamp(name)
    ensures SplitDateHourTimestamp(name).None? && DashedTimestamp(name).None? && MidnightTimestamp(name).Some? ==>
              r == MidnightTimestamp(name)
    ensures SplitDateHourTimestamp(name).None? && DashedTimestamp(name).None? && MidnightTimestamp(name).None? ==>
              r == TruncatedMillisTimestamp(name)
    ensures r.None? <==> SplitDateHourTimestamp(name).None? && DashedTimestamp(name).None?
                         && MidnightTimestamp(name).None? && FilenameHeuristics.MillisCapture(name).None?
  {
    var split := SplitDateHourTimestamp(name);
    if split.Some? then split
    else
      var dashed := DashedTimestamp(name);
      if dashed.Some? then dashed
      else
        var midnight := MidnightTimestamp(name);
        if midnight.Some? then midnight
        else
          TruncatedMillisAlwaysConverts(name);
          TruncatedMillisTimestamp(name)
  }
}
