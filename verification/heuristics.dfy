/**
 * The file-name heuristics of `get_regex_timestamp`. Each regex is a fixed
 * pattern over digit and non-digit runs; it is modelled as a scanner that
 * decides whether the pattern matches at a start position, searched from the
 * left as the regex engine does. Digits are the ASCII digits.
 */
module FilenameHeuristics {
  import opened Wrappers
  import opened Text
  import opened Search
  import opened Paths
  import Civil

  predicate DigitsAt(s: string, i: nat, n: nat) {
    i + n <= |s| && forall k :: i <= k < i + n ==> IsDigit(s[k])
  }

  /** s[a..b] is a (possibly empty) run of non-digits. */
  predicate Gap(s: string, a: nat, b: nat) {
    a <= b <= |s| && forall k :: a <= k < b ==> !IsDigit(s[k])
  }

  /** The end of the non-digit run starting at i: where `\D*` stops. */
  function SkipNonDigits(s: string, i: nat): (j: nat)
    requires i <= |s|
    ensures Gap(s, i, j)
    ensures j == |s| || IsDigit(s[j])
    ensures forall k :: i <= k < |s| && IsDigit(s[k]) ==> j <= k
    decreases |s| - i
  {
    if i == |s| || IsDigit(s[i]) then i else SkipNonDigits(s, i + 1)
  }

  /** `\D*` followed by a digit can only stop at that digit. */
  lemma SkipLands(s: string, a: nat, b: nat)
    requires Gap(s, a, b) && b < |s| && IsDigit(s[b])
    ensures SkipNonDigits(s, a) == b
  {
  }

  // ---------------------------------------------------------------------
  // DATE_HOUR_PATTERN: (\d{4})\D*(\d{2})\D*(\d{2})\D*(\d{2})\D*(\d{2})\D*(\d{2})

  /** Every window inside a digit run is all digits. */
  lemma DigitsSlice(s: string, i: nat, n: nat, a: nat, b: nat)
    requires DigitsAt(s, i, n) && a <= b <= n
    ensures AllDigits(s[i + a..i + b])
  {
  }

  /** gs holds the starts of consecutive `\D*(\d{2})` groups matched from position p on. */
  ghost predicate PairsMatch(s: string, p: nat, gs: seq<nat>)
    decreases |gs|
  {
    |gs| == 0 || (Gap(s, p, gs[0]) && DigitsAt(s, gs[0], 2) && PairsMatch(s, gs[0] + 2, gs[1..]))
  }

  /** Every group start of a pairs match is followed by two digits. */
  lemma {:induction false} PairsDigits(s: string, p: nat, gs: seq<nat>)
    requires PairsMatch(s, p, gs)
    ensures forall i :: 0 <= i < |gs| ==> DigitsAt(s, gs[i], 2)
    decreases |gs|
  {
    if |gs| > 0 {
      PairsDigits(s, gs[0] + 2, gs[1..]);
      assert forall i :: 1 <= i < |gs| ==> gs[i] == gs[1..][i - 1];
    }
  }

  /** g holds the start of each of the six groups of a match of the pattern at i. */
  ghost predicate DateHourMatch(s: string, i: nat, g: seq<nat>) {
    |g| == 6 && g[0] == i && DigitsAt(s, i, 4) && PairsMatch(s, i + 4, g[1..])
  }

  /** The start of the next two-digit group after position p, if `\D*\d{2}` matches there. */
  function NextPair(s: string, p: nat): (r: Option<nat>)
    requires p <= |s|
    ensures r.Some? ==> Gap(s, p, r.value) && DigitsAt(s, r.value, 2)
  {
    var j := SkipNonDigits(s, p);
    if DigitsAt(s, j, 2) then Some(j) else None
  }

  lemma NextPairUnique(s: string, p: nat, q: nat)
    requires Gap(s, p, q) && DigitsAt(s, q, 2)
    ensures NextPair(s, p) == Some(q)
  {
    SkipLands(s, p, q);
  }

  /** The starts of n consecutive `\D*(\d{2})` groups from p on, if they match. */
  function Pairs(s: string, p: nat, n: nat): (r: Option<seq<nat>>)
    requires p <= |s|
    ensures r.Some? ==> |r.value| == n && PairsMatch(s, p, r.value)
    ensures r.Some? ==> p + 2 * n <= |s|
    decreases n
  {
    if n == 0 then Some([])
    else
      match NextPair(s, p)
      case None => None
      case Some(q) =>
        match Pairs(s, q + 2, n - 1)
        case None => None
        case Some(rest) =>
          assert ([q] + rest)[1..] == rest;
          Some([q] + rest)
  }

  lemma {:induction false} PairsComplete(s: string, p: nat, gs: seq<nat>)
    requires p <= |s| && PairsMatch(s, p, gs)
    ensures Pairs(s, p, |gs|) == Some(gs)
    decreases |gs|
  {
    if |gs| > 0 {
      var q, rest := gs[0], gs[1..];
      assert Gap(s, p, q) && DigitsAt(s, q, 2) && PairsMatch(s, q + 2, rest);
      NextPairUnique(s, p, q);
      PairsComplete(s, q + 2, rest);
      PairsCons(s, p, |gs|, q, rest);
      assert [q] + rest == gs;
    }
  }

  /** One group found by NextPair, then the rest: the scanner's recursive step. */
  lemma PairsCons(s: string, p: nat, n: nat, q: nat, rest: seq<nat>)
    requires p <= |s| && n > 0 && NextPair(s, p) == Some(q) && q + 2 <= |s|
    requires Pairs(s, q + 2, n - 1) == Some(rest)
    ensures Pairs(s, p, n) == Some([q] + rest)
  {
  }

  /** The scanner for the pattern at i: the group starts of the one match there, if any. */
  function DateHourGroups(s: string, i: nat): (r: Option<seq<nat>>)
    ensures r.Some? ==> DateHourMatch(s, i, r.value)
    ensures r.Some? ==> i + 14 <= |s|
  {
    if !DigitsAt(s, i, 4) then None
    else
      match Pairs(s, i + 4, 5)
      case None => None
      case Some(gs) =>
        assert ([i] + gs)[1..] == gs;
        Some([i] + gs)
  }

  /** Every match of the pattern at i is the one the scanner finds: the regex's `\D*` runs leave no choice. */
  lemma DateHourGroupsComplete(s: string, i: nat, g: seq<nat>)
    requires DateHourMatch(s, i, g)
    ensures DateHourGroups(s, i) == Some(g)
  {
    var gs := g[1..];
    assert DigitsAt(s, i, 4) && PairsMatch(s, i + 4, gs) && |gs| == 5;
    PairsComplete(s, i + 4, gs);
    assert [i] + gs == g;
  }

  predicate DateHourAt(s: string, k: nat) {
    DateHourGroups(s, k).Some?
  }

  /** The six captures concatenated, as `format!("{year}{month}{day}{hour}{minute}{second}")` builds them. */
  function Captured(s: string, g: seq<nat>): (t: string)
    requires |g| == 6 && DateHourMatch(s, g[0], g)
    ensures |t| == 14 && AllDigits(t)
  {
    PairsDigits(s, g[0] + 4, g[1..]);
    assert forall i :: 1 <= i < 6 ==> g[i] == g[1..][i - 1];
    s[g[0]..g[0] + 4] + s[g[1]..g[1] + 2] + s[g[2]..g[2] + 2]
      + s[g[3]..g[3] + 2] + s[g[4]..g[4] + 2] + s[g[5]..g[5] + 2]
  }

  /** `[year][month][day][hour][minute][second]` read by the time crate from 14 digits. */
  function ParseCompact(t: string): Option<Civil.DateTime>
    requires |t| == 14 && AllDigits(t)
  {
    Civil.TimeCrateDateTime(DecimalValue(t[0..4]), DecimalValue(t[4..6]), DecimalValue(t[6..8]),
                            DecimalValue(t[8..10]), DecimalValue(t[10..12]), DecimalValue(t[12..14]))
  }

  /** First heuristic: the leftmost match of the date-hour pattern, if its digits form a valid instant. */
  function DateHourTimestamp(s: string): (r: Option<Civil.DateTime>)
    ensures r.Some? ==> Civil.Valid(r.value) && Civil.InTimeRange(r.value)
  {
    var ok := (k: nat) => DateHourAt(s, k);
    match Leftmost(|s| + 1, ok, 0)
    case None => None
    case Some(k) =>
      assert ok(k);
      var g := DateHourGroups(s, k).value;
      assert g[0] == k;
      ParseCompact(Captured(s, g))
  }

  // ---------------------------------------------------------------------
  // DATE_PATTERN: (\d{8})

  predicate EightDigitsAt(s: string, k: nat) {
    DigitsAt(s, k, 8)
  }

  /** Second heuristic: the leftmost 8-digit window read as `YYYYMMDD` at midnight. */
  function DateTimestamp(s: string): (r: Option<Civil.DateTime>)
    ensures r.Some? ==> Civil.Valid(r.value) && Civil.InTimeRange(r.value)
    ensures r.Some? ==> r.value.hour == 0 && r.value.minute == 0 && r.value.second == 0
  {
    var ok := (k: nat) => EightDigitsAt(s, k);
    match Leftmost(|s| + 1, ok, 0)
    case None => None
    case Some(k) =>
      assert ok(k);
      DigitsSlice(s, k, 8, 0, 4);
      DigitsSlice(s, k, 8, 4, 6);
      DigitsSlice(s, k, 8, 6, 8);
      Civil.TimeCrateDateTime(DecimalValue(s[k..k + 4]), DecimalValue(s[k + 4..k + 6]),
                              DecimalValue(s[k + 6..k + 8]), 0, 0, 0)
  }

  // ---------------------------------------------------------------------
  // MILLIS_PATTERN: .*(\d{13})

  predicate MillisWindowAt(s: string, k: nat) {
    DigitsAt(s, k, 13)
  }

  /**
   * The last 13-digit window at or after `best` that `.*` can reach from the
   * first window: `.` does not match a line feed, so the scan stops at one.
   */
  function LastWindow(s: string, i: nat, best: nat): (c: nat)
    requires best <= i <= |s| && MillisWindowAt(s, best)
    requires '\n' !in s[best..i]
    ensures best <= c && MillisWindowAt(s, c)
    ensures '\n' !in s[best..c]
    ensures forall k :: c < k && i <= k && MillisWindowAt(s, k) ==> '\n' in s[i..k]
    decreases |s| - i
  {
    if i == |s| || s[i] == '\n' then best
    else
      assert s[best..i + 1] == s[best..i] + [s[i]];
      LastWindow(s, i + 1, if MillisWindowAt(s, i) then i else best)
  }

  /** The start of the captured window: the greedy `.*` from the leftmost match start. */
  function MillisCapture(s: string): (r: Option<nat>)
    ensures r.None? <==> forall k :: 0 <= k <= |s| ==> !MillisWindowAt(s, k)
    ensures r.Some? ==> MillisWindowAt(s, r.value)
  {
    var ok := (k: nat) => MillisWindowAt(s, k);
    match Leftmost(|s| + 1, ok, 0)
    case None =>
      assert forall k :: 0 <= k <= |s| ==> !MillisWindowAt(s, k) by {
        forall k | 0 <= k <= |s| ensures !MillisWindowAt(s, k) {
          assert !ok(k);
        }
      }
      None
    case Some(k) =>
      assert ok(k);
      Some(LastWindow(s, k, k))
  }

  /** Thirteen digits of milliseconds are whole seconds inside the time crate's range. */
  lemma MillisSecondsInRange(digits: string)
    requires |digits| == 13 && AllDigits(digits)
    ensures Civil.TIME_MIN_UNIX <= DecimalValue(digits) / 1000 <= Civil.TIME_MAX_UNIX
  {
    DecimalValueBound(digits);
    assert Pow10(13) == 10_000_000_000_000;
    var v := DecimalValue(digits);
    assert v / 1000 <= 10_000_000_000 by {
      assert v < 10_000_000_000_000;
    }
  }

  /** Every 13-digit window converts: its seconds are inside the time crate's range. */
  lemma MillisWindowConverts(s: string, c: nat)
    requires MillisWindowAt(s, c)
    ensures AllDigits(s[c..c + 13])
    ensures Civil.TimeFromUnix(DecimalValue(s[c..c + 13]) / 1000).Some?
  {
    DigitsSlice(s, c, 13, 0, 13);
    MillisSecondsInRange(s[c..c + 13]);
  }

  /** Third heuristic: the captured 13 digits are milliseconds since the epoch, truncated to seconds. */
  function MillisTimestamp(s: string): (r: Option<Civil.DateTime>)
    ensures r.Some? <==> MillisCapture(s).Some?
    ensures r.Some? ==> Civil.Valid(r.value) && Civil.InTimeRange(r.value)
    ensures r.Some? ==> var c := MillisCapture(s).value;
      AllDigits(s[c..c + 13]) && Civil.ToUnix(r.value) == DecimalValue(s[c..c + 13]) / 1000
  {
    match MillisCapture(s)
    case None => None
    case Some(c) =>
      MillisWindowConverts(s, c);
      Civil.TimeFromUnix(DecimalValue(s[c..c + 13]) / 1000)
  }

  /** The file-name heuristics in the order the source tries them, on the path's stem. */
  function RegexTimestamp(p: MediaPath): (r: Option<Civil.DateTime>)
    ensures FileStem(p).None? ==> r.None?
    ensures FileStem(p).Some? ==> var s := FileStem(p).value;
      (DateHourTimestamp(s).Some? ==> r == DateHourTimestamp(s)) &&
      (DateHourTimestamp(s).None? && DateTimestamp(s).Some? ==> r == DateTimestamp(s)) &&
      (DateHourTimestamp(s).None? && DateTimestamp(s).None? ==> r == MillisTimestamp(s))
    ensures r.Some? ==> p.fileName.Some? && Civil.Valid(r.value) && Civil.InTimeRange(r.value)
  {
    match FileStem(p)
    case None => None
    case Some(name) =>
      StemAndExtension(p);
      var dateHour := DateHourTimestamp(name);
      if dateHour.Some? then dateHour
      else
        var date := DateTimestamp(name);
        if date.Some? then date else MillisTimestamp(name)
  }

  // ---------------------------------------------------------------------
  // Each scanner against a direct reading of its regex.

  /** A match at k with none further left is the one the date-hour heuristic reads. */
  lemma DateHourLeftmost(s: string, k: nat, g: seq<nat>)
    requires DateHourMatch(s, k, g)
    requires forall j :: 0 <= j < k ==> !DateHourAt(s, j)
    ensures DateHourGroups(s, k) == Some(g)
    ensures DateHourTimestamp(s) == ParseCompact(Captured(s, g))
  {
    DateHourGroupsComplete(s, k, g);
    DateHourNeedsRoom(s, k);
    var ok := (j: nat) => DateHourAt(s, j);
    LeftmostIs(|s| + 1, ok, 0, k);
  }

  /** The date-hour pattern needs 14 characters: a shorter name never matches it. */
  lemma DateHourNeedsRoom(s: string, k: nat)
    requires DateHourAt(s, k)
    ensures k + 14 <= |s|
  {
  }

  /** With no match anywhere, the date-hour heuristic yields nothing. */
  lemma DateHourNone(s: string)
    requires forall j :: 0 <= j <= |s| ==> !DateHourAt(s, j)
    ensures DateHourTimestamp(s).None?
  {
    var ok := (j: nat) => DateHourAt(s, j);
    assert Leftmost(|s| + 1, ok, 0).None?;
  }

  /** The leftmost 8-digit window at k is the one the date heuristic reads. */
  lemma DateLeftmost(s: string, k: nat)
    requires EightDigitsAt(s, k)
    requires forall j :: 0 <= j < k ==> !EightDigitsAt(s, j)
    ensures AllDigits(s[k..k + 4]) && AllDigits(s[k + 4..k + 6]) && AllDigits(s[k + 6..k + 8])
    ensures DateTimestamp(s) == Civil.TimeCrateDateTime(DecimalValue(s[k..k + 4]), DecimalValue(s[k + 4..k + 6]),
                                                        DecimalValue(s[k + 6..k + 8]), 0, 0, 0)
  {
    DigitsSlice(s, k, 8, 0, 4);
    DigitsSlice(s, k, 8, 4, 6);
    DigitsSlice(s, k, 8, 6, 8);
    var ok := (j: nat) => EightDigitsAt(s, j);
    assert ok(k);
    assert Leftmost(|s| + 1, ok, 0) == Some(k);
  }

  /** The first 13-digit window at k starts the greedy scan that picks the captured window. */
  lemma MillisLeftmost(s: string, k: nat)
    requires MillisWindowAt(s, k)
    requires forall j :: 0 <= j < k ==> !MillisWindowAt(s, j)
    ensures MillisCapture(s) == Some(LastWindow(s, k, k))
  {
    var ok := (j: nat) => MillisWindowAt(s, j);
    assert ok(k);
    assert Leftmost(|s| + 1, ok, 0) == Some(k);
  }

  /**
   * Any 13 digits fit the time crate's range once divided by 1000, so the
   * millis heuristic fails only when the name holds no 13-digit run.
   */
  lemma MillisAlwaysConverts(s: string)
    ensures MillisTimestamp(s).Some? <==> exists k :: 0 <= k <= |s| && MillisWindowAt(s, k)
  {
  }
}
