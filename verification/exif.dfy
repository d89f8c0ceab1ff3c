/**
 * The slice of EXIF the catalog reads: primary-IFD fields, the three
 * date-time tags and Orientation (Exif 2.3, CIPA DC-008, sections 4.6.4 and
 * 4.6.5), and the `YYYY:MM:DD HH:MM:SS` date-time text. Container parsing is
 * the exif crate's job and is represented by the decoded field list.
 */
module Exif {
  import opened Wrappers
  import opened Search
  import Civil
  import Text

  newtype byte = x: int | 0 <= x < 256

  /** The IFD family a tag number belongs to (the exif crate's `Context`). */
  datatype Context = Tiff | ExifIfd | Gps | Interop

  datatype Tag = Tag(context: Context, number: nat)

  const DATE_TIME: Tag := Tag(Tiff, 0x0132)
  const DATE_TIME_ORIGINAL: Tag := Tag(ExifIfd, 0x9003)
  const DATE_TIME_DIGITIZED: Tag := Tag(ExifIfd, 0x9004)
  const ORIENTATION: Tag := Tag(Tiff, 0x0112)

  /** `In::PRIMARY`: the IFD of the main image. */
  const PRIMARY: nat := 0

  /** ASCII values are lists of byte strings (NUL-separated in the file); BYTE/SHORT/LONG values are lists of numbers. */
  datatype Value = Ascii(entries: seq<seq<byte>>) | Unsigned(values: seq<nat>) | OtherValue

  datatype Field = Field(tag: Tag, ifdNum: nat, value: Value)

  // ---------------------------------------------------------------------
  // UTF-8 (`str::from_utf8`)

  predicate InRange(b: byte, lo: int, hi: int) {
    lo <= b as int <= hi
  }

  /**
   * Length of the well-formed UTF-8 sequence that starts b (Table 3-7 of the
   * Unicode Standard), or 0 when b does not start with one.
   */
  function Utf8Prefix(b: seq<byte>): (n: nat)
    requires |b| > 0
    ensures n <= |b| && n <= 4
  {
    var b0 := b[0];
    if InRange(b0, 0x00, 0x7F) then 1
    else if |b| >= 2 && InRange(b0, 0xC2, 0xDF) && InRange(b[1], 0x80, 0xBF) then 2
    else if |b| >= 3 && (
        (b0 == 0xE0 && InRange(b[1], 0xA0, 0xBF))
        || ((InRange(b0, 0xE1, 0xEC) || InRange(b0, 0xEE, 0xEF)) && InRange(b[1], 0x80, 0xBF))
        || (b0 == 0xED && InRange(b[1], 0x80, 0x9F)))
      && InRange(b[2], 0x80, 0xBF) then 3
    else if |b| >= 4 && (
        (b0 == 0xF0 && InRange(b[1], 0x90, 0xBF))
        || (InRange(b0, 0xF1, 0xF3) && InRange(b[1], 0x80, 0xBF))
        || (b0 == 0xF4 && InRange(b[1], 0x80, 0x8F)))
      && InRange(b[2], 0x80, 0xBF) && InRange(b[3], 0x80, 0xBF) then 4
    else 0
  }

  predicate ValidUtf8(b: seq<byte>)
    decreases |b|
  {
    |b| == 0 || (Utf8Prefix(b) > 0 && ValidUtf8(b[Utf8Prefix(b)..]))
  }

  predicate IsAscii(b: seq<byte>) {
    forall k :: 0 <= k < |b| ==> b[k] < 0x80
  }

  lemma {:induction false} AsciiIsUtf8(b: seq<byte>)
    requires IsAscii(b)
    ensures ValidUtf8(b)
    decreases |b|
  {
    if |b| > 0 {
      assert Utf8Prefix(b) == 1;
      AsciiIsUtf8(b[1..]);
    }
  }

  function FromUtf8(b: seq<byte>): Option<seq<byte>> {
    if ValidUtf8(b) then Some(b) else None
  }

  // ---------------------------------------------------------------------
  // single_ascii

  function AllEmpty(entries: seq<seq<byte>>): (r: bool)
    ensures r <==> forall k :: 0 <= k < |entries| ==> entries[k] == []
  {
    if |entries| == 0 then true else entries[0] == [] && AllEmpty(entries[1..])
  }

  /**
   * `single_ascii`: the text of a one-entry ASCII value, or of a longer one
   * whose later entries are all empty, provided it is UTF-8.
   */
  function SingleAscii(v: Value): (r: Option<seq<byte>>)
    ensures r.Some? <==> v.Ascii? && |v.entries| >= 1 && ValidUtf8(v.entries[0])
                         && forall k :: 1 <= k < |v.entries| ==> v.entries[k] == []
    ensures r.Some? ==> r.value == v.entries[0]
  {
    match v
    case Ascii(entries) =>
      if |entries| == 1 then FromUtf8(entries[0])
      else if |entries| > 1 then
        if !AllEmpty(entries[1..]) then None else FromUtf8(entries[0])
      else None
    case _ => None
  }

  // ---------------------------------------------------------------------
  // The `YYYY:MM:DD HH:MM:SS` layout

  /** The six numbers read from a date-time text, before calendar validation. */
  datatype RawDateTime = RawDateTime(year: int, month: int, day: int, hour: int, minute: int, second: int)

  const COLON: byte := 0x3A
  const SPACE: byte := 0x20
  const PLUS: byte := 0x2B
  const MINUS: byte := 0x2D

  predicate IsDigitByte(b: byte) {
    0x30 <= b <= 0x39
  }

  predicate DigitsAt(b: seq<byte>, i: nat, n: nat) {
    i + n <= |b| && forall k :: i <= k < i + n ==> IsDigitByte(b[k])
  }

  function DigitAt(b: seq<byte>, i: nat): int
    requires i < |b|
  {
    b[i] as int - 0x30
  }

  function Two(b: seq<byte>, i: nat): int
    requires i + 2 <= |b|
  {
    DigitAt(b, i) * 10 + DigitAt(b, i + 1)
  }

  function Four(b: seq<byte>, i: nat): int
    requires i + 4 <= |b|
  {
    Two(b, i) * 100 + Two(b, i + 2)
  }

  /** The date-time layout after an optional sign, starting at i. */
  predicate LayoutAt(b: seq<byte>, i: nat) {
    |b| == i + 19
    && DigitsAt(b, i, 4) && b[i + 4] == COLON && DigitsAt(b, i + 5, 2) && b[i + 7] == COLON
    && DigitsAt(b, i + 8, 2) && b[i + 10] == SPACE && DigitsAt(b, i + 11, 2) && b[i + 13] == COLON
    && DigitsAt(b, i + 14, 2) && b[i + 16] == COLON && DigitsAt(b, i + 17, 2)
  }

  /**
   * Reads `[year]:[month]:[day] [hour]:[minute]:[second]` with the whole
   * input consumed: an optional sign, a four-digit year and two-digit fields.
   */
  function ParseLayout(b: seq<byte>): (r: Option<RawDateTime>)
    ensures r.Some? ==> |b| == 19 || |b| == 20
    ensures r.Some? ==> forall k :: 0 <= k < |b| ==> b[k] < 0x80
  {
    var signed := |b| > 0 && (b[0] == PLUS || b[0] == MINUS);
    var i := if signed then 1 else 0;
    if !LayoutAt(b, i) then None
    else
      var year := Four(b, i);
      Some(RawDateTime(if signed && b[0] == MINUS then -year else year,
                       Two(b, i + 5), Two(b, i + 8), Two(b, i + 11), Two(b, i + 14), Two(b, i + 17)))
  }

  // ---------------------------------------------------------------------
  // chrono's `parse_from_str(s, "%Y:%m:%d %T")`

  /**
   * The byte length of the white-space character that starts at i, or 0 when
   * none does. The characters are those of Rust's `char::is_whitespace` in
   * UTF-8: tab to carriage return, space, U+0085, U+00A0, U+1680,
   * U+2000..U+200A, U+2028, U+2029, U+202F, U+205F and U+3000.
   */
  function WhitespaceLen(b: seq<byte>, i: nat): (n: nat)
    ensures n <= 3 && (n > 0 ==> i + n <= |b|)
    ensures i < |b| && IsDigitByte(b[i]) ==> n == 0
    ensures i < |b| && (b[i] == COLON || b[i] == PLUS || b[i] == MINUS) ==> n == 0
    ensures i < |b| && b[i] == SPACE ==> n == 1
  {
    if i >= |b| then 0
    else if b[i] == SPACE || 0x09 <= b[i] <= 0x0D then 1
    else if i + 2 <= |b| && b[i] == 0xC2 && (b[i + 1] == 0x85 || b[i + 1] == 0xA0) then 2
    else if i + 3 > |b| then 0
    else if b[i] == 0xE1 && b[i + 1] == 0x9A && b[i + 2] == 0x80 then 3
    else if b[i] == 0xE2 && b[i + 1] == 0x80
            && (0x80 <= b[i + 2] <= 0x8A || b[i + 2] == 0xA8 || b[i + 2] == 0xA9 || b[i + 2] == 0xAF) then 3
    else if b[i] == 0xE2 && b[i + 1] == 0x81 && b[i + 2] == 0x9F then 3
    else if b[i] == 0xE3 && b[i + 1] == 0x80 && b[i + 2] == 0x80 then 3
    else 0
  }

  /** `trim_start`: the first position at or after i where no white space starts. */
  function SkipSpaces(b: seq<byte>, i: nat): (j: nat)
    requires i <= |b|
    ensures i <= j <= |b| && WhitespaceLen(b, j) == 0
    ensures WhitespaceLen(b, i) == 0 ==> j == i
    decreases |b| - i
  {
    var n := WhitespaceLen(b, i);
    if n == 0 then i else SkipSpaces(b, i + n)
  }

  /** The value of the digits b[i..j]. */
  function DigitsValue(b: seq<byte>, i: nat, j: nat): (v: nat)
    requires i <= j && DigitsAt(b, i, j - i)
    ensures v < Text.Pow10(j - i)
    decreases j - i
  {
    if j == i then 0 else DigitsValue(b, i, j - 1) * 10 + DigitAt(b, j - 1)
  }

  /** The end of the run of at most `max` digits that starts at i. */
  function DigitRun(b: seq<byte>, i: nat, max: nat): (j: nat)
    requires i <= |b|
    ensures i <= j <= |b| && j - i <= max && DigitsAt(b, i, j - i)
    ensures j - i < max && j < |b| ==> !IsDigitByte(b[j])
    decreases max
  {
    if max == 0 || i == |b| || !IsDigitByte(b[i]) then i else DigitRun(b, i + 1, max - 1)
  }

  /** A number read from the text, and the position after it. */
  datatype Scanned = Scanned(value: int, next: nat)

  /** One more than the largest i64. */
  const I64_LIMIT: int := 0x8000_0000_0000_0000

  /**
   * `scan::number(s, 1, max)`: one to `max` digits at i. No digit there, or a
   * value beyond i64, is an error.
   */
  function Number(b: seq<byte>, i: nat, max: nat): (r: Option<Scanned>)
    requires i <= |b|
    ensures r.None? <==> max == 0 || i == |b| || !IsDigitByte(b[i])
                         || DigitsValue(b, i, DigitRun(b, i, max)) >= I64_LIMIT
    ensures r.Some? ==> i < r.value.next <= |b| && r.value.next - i <= max && DigitsAt(b, i, r.value.next - i)
    ensures r.Some? ==> r.value.next - i < max && r.value.next < |b| ==> !IsDigitByte(b[r.value.next])
    ensures r.Some? ==> 0 <= r.value.value < Text.Pow10(r.value.next - i)
  {
    var j := DigitRun(b, i, max);
    if j == i then None
    else
      var v := DigitsValue(b, i, j);
      if v >= I64_LIMIT then None else Some(Scanned(v, j))
  }

  /** A numeric item other than the year: leading white space, then one to `width` digits. */
  function Numeric(b: seq<byte>, i: nat, width: nat): (r: Option<Scanned>)
    requires i <= |b|
    ensures r == Number(b, SkipSpaces(b, i), width)
    ensures r.Some? ==> i < r.value.next <= |b| && 0 <= r.value.value < Text.Pow10(width)
  {
    var s := SkipSpaces(b, i);
    var r := Number(b, s, width);
    assert r.Some? ==> r.value.value < Text.Pow10(width) by {
      if r.Some? {
        Text.Pow10Monotone(r.value.next - s, width);
      }
    }
    r
  }

  /**
   * The `%Y` item: leading white space, then `-` or `+` followed by any number
   * of digits, or else one to four digits.
   */
  function YearItem(b: seq<byte>, i: nat): (r: Option<Scanned>)
    requires i <= |b|
    ensures r.Some? ==> i <= SkipSpaces(b, i) < r.value.next <= |b|
    ensures r.Some? && r.value.value < 0 ==> b[SkipSpaces(b, i)] == MINUS
    ensures r.Some? && b[SkipSpaces(b, i)] != MINUS && b[SkipSpaces(b, i)] != PLUS ==> 0 <= r.value.value < 10000
  {
    var s := SkipSpaces(b, i);
    if s < |b| && b[s] == MINUS then
      match Number(b, s + 1, |b|)
      case None => None
      case Some(n) => Some(Scanned(-n.value, n.next))
    else if s < |b| && b[s] == PLUS then Number(b, s + 1, |b|)
    else
      var r := Number(b, s, 4);
      assert r.Some? ==> r.value.value < 10000 by {
        if r.Some? {
          Text.Pow10Monotone(r.value.next - s, 4);
          assert Text.Pow10(4) == 10000;
        }
      }
      r
  }

  /** A literal byte of the format, matched exactly. */
  function Literal(b: seq<byte>, i: nat, c: byte): (r: Option<nat>)
    requires i <= |b|
    ensures r.Some? <==> i < |b| && b[i] == c
    ensures r.Some? ==> r.value == i + 1
  {
    if i < |b| && b[i] == c then Some(i + 1) else None
  }

  /** The three numbers of a time of day, before validation. */
  datatype Clock = Clock(hour: int, minute: int, second: int)

  /**
   * The `%T` items from i on: hour, `:`, minute, `:`, second, and then
   * nothing left over.
   */
  function ChronoTime(b: seq<byte>, i: nat): (r: Option<Clock>)
    requires i <= |b|
    ensures r.Some? ==> 0 <= r.value.hour < 100 && 0 <= r.value.minute < 100 && 0 <= r.value.second < 100
    ensures r.Some? ==> i + 5 <= |b|
  {
    var hour :- Numeric(b, i, 2);
    var minuteStart :- Literal(b, hour.next, COLON);
    var minute :- Numeric(b, minuteStart, 2);
    var secondStart :- Literal(b, minute.next, COLON);
    var second :- Numeric(b, secondStart, 2);
    if second.next != |b| then None else Some(Clock(hour.value, minute.value, second.value))
  }

  /**
   * `NaiveDateTime::parse_from_str(s, "%Y:%m:%d %T")` up to calendar
   * validation: the items year, `:`, month, `:`, day, white space and `%T`.
   */
  function ChronoParse(b: seq<byte>): (r: Option<RawDateTime>)
    ensures r.Some? ==> 0 <= r.value.month < 100 && 0 <= r.value.day < 100 && 0 <= r.value.hour < 100
                        && 0 <= r.value.minute < 100 && 0 <= r.value.second < 100
    ensures r.Some? ==> |b| >= 11
  {
    var year :- YearItem(b, 0);
    var monthStart :- Literal(b, year.next, COLON);
    var month :- Numeric(b, monthStart, 2);
    var dayStart :- Literal(b, month.next, COLON);
    var day :- Numeric(b, dayStart, 2);
    var time :- ChronoTime(b, SkipSpaces(b, day.next));
    Some(RawDateTime(year.value, month.value, day.value, time.hour, time.minute, time.second))
  }

  /** A digit run of length n that ends before a non-digit, or at `max`, is where `DigitRun` stops. */
  lemma {:induction false} DigitRunStops(b: seq<byte>, i: nat, n: nat, max: nat)
    requires DigitsAt(b, i, n) && n <= max
    requires n == max || i + n == |b| || !IsDigitByte(b[i + n])
    ensures DigitRun(b, i, max) == i + n
    decreases n
  {
    if n > 0 {
      DigitRunStops(b, i + 1, n - 1, max - 1);
    }
  }

  /** Two and four digits read one by one are the positional values `Two` and `Four`. */
  lemma FixedDigitsValue(b: seq<byte>, i: nat, n: nat)
    requires DigitsAt(b, i, n) && (n == 2 || n == 4)
    ensures n == 2 ==> DigitsValue(b, i, i + 2) == Two(b, i)
    ensures n == 4 ==> DigitsValue(b, i, i + 4) == Four(b, i)
  {
    assert DigitsValue(b, i, i + 1) == DigitAt(b, i);
    if n == 4 {
      assert DigitsValue(b, i, i + 2) == Two(b, i);
      assert DigitsValue(b, i, i + 3) == Two(b, i) * 10 + DigitAt(b, i + 2);
    }
  }

  /** n digits at i, ended by a non-digit or by the end of the text, are read as one number. */
  lemma NumberAt(b: seq<byte>, i: nat, n: nat, max: nat)
    requires 1 <= n <= max && DigitsAt(b, i, n)
    requires n == max || i + n == |b| || !IsDigitByte(b[i + n])
    requires DigitsValue(b, i, i + n) < I64_LIMIT
    ensures Number(b, i, max) == Some(Scanned(DigitsValue(b, i, i + n), i + n))
  {
    DigitRunStops(b, i, n, max);
  }

  /** A two-digit field at i that is not followed by a digit is what a numeric item reads there. */
  lemma TwoDigitField(b: seq<byte>, i: nat)
    requires DigitsAt(b, i, 2) && (i + 2 == |b| || !IsDigitByte(b[i + 2]))
    ensures Numeric(b, i, 2) == Some(Scanned(Two(b, i), i + 2))
  {
    FixedDigitsValue(b, i, 2);
    NumberAt(b, i, 2, 2);
  }

  /** Wherever the strict layout reads a text, chrono reads the same six numbers from it. */
  lemma ChronoReadsLayout(b: seq<byte>)
    requires ParseLayout(b).Some?
    ensures ChronoParse(b) == ParseLayout(b)
  {
    var signed := b[0] == PLUS || b[0] == MINUS;
    var i := if signed then 1 else 0;
    assert LayoutAt(b, i);
    var year := if i == 1 && b[0] == MINUS then -Four(b, 1) else Four(b, i);
    var raw := RawDateTime(year, Two(b, i + 5), Two(b, i + 8), Two(b, i + 11), Two(b, i + 14), Two(b, i + 17));
    assert ParseLayout(b) == Some(raw);
    LayoutYear(b, i);
    TwoDigitField(b, i + 5);
    TwoDigitField(b, i + 8);
    assert SkipSpaces(b, i + 10) == i + 11 by {
      assert WhitespaceLen(b, i + 10) == 1;
    }
    LayoutTime(b, i + 11);
    assert ChronoParse(b) == Some(raw);
  }

  /** The year of a text in the layout, with its optional sign, is what chrono's `%Y` reads. */
  lemma LayoutYear(b: seq<byte>, i: nat)
    requires i == (if |b| > 0 && (b[0] == PLUS || b[0] == MINUS) then 1 else 0) && LayoutAt(b, i)
    ensures YearItem(b, 0) == Some(Scanned(if i == 1 && b[0] == MINUS then -Four(b, 1) else Four(b, i), i + 4))
  {
    FixedDigitsValue(b, i, 4);
    if i == 1 {
      DigitRunStops(b, 1, 4, |b|);
    } else {
      DigitRunStops(b, 0, 4, 4);
    }
  }

  /** `HH:MM:SS` at the end of the text is the time chrono reads there. */
  lemma LayoutTime(b: seq<byte>, i: nat)
    requires |b| == i + 8 && DigitsAt(b, i, 2) && b[i + 2] == COLON && DigitsAt(b, i + 3, 2)
    requires b[i + 5] == COLON && DigitsAt(b, i + 6, 2)
    ensures ChronoTime(b, i) == Some(Clock(Two(b, i), Two(b, i + 3), Two(b, i + 6)))
  {
    TwoDigitField(b, i);
    TwoDigitField(b, i + 3);
    TwoDigitField(b, i + 6);
  }

  /** The Exif text of the date-times of the time crate's writer, read back by chrono. */
  lemma ChronoParseFormat(dt: Civil.DateTime)
    requires 0 <= dt.year < 10000 && Civil.Valid(dt)
    ensures ChronoParse(Format(dt)) == Some(RawDateTime(dt.year, dt.month, dt.day, dt.hour, dt.minute, dt.second))
  {
    ParseFormat(dt);
    ChronoReadsLayout(Format(dt));
  }

  /**
   * A text in the layout except that the month and the minute have one digit:
   * chrono reads it, the strict layout does not.
   */
  lemma ChronoShortFields(b: seq<byte>)
    requires |b| == 17 && DigitsAt(b, 0, 4) && b[4] == COLON && IsDigitByte(b[5]) && b[6] == COLON
    requires DigitsAt(b, 7, 2) && b[9] == SPACE && DigitsAt(b, 10, 2) && b[12] == COLON
    requires IsDigitByte(b[13]) && b[14] == COLON && DigitsAt(b, 15, 2)
    ensures ChronoParse(b) == Some(RawDateTime(Four(b, 0), DigitAt(b, 5), Two(b, 7), Two(b, 10), DigitAt(b, 13), Two(b, 15)))
    ensures ParseLayout(b).None?
  {
    FixedDigitsValue(b, 0, 4);
    NumberAt(b, 0, 4, 4);
    assert YearItem(b, 0) == Some(Scanned(Four(b, 0), 4));
    OneDigitField(b, 5);
    TwoDigitField(b, 7);
    assert SkipSpaces(b, 9) == 10 by {
      assert WhitespaceLen(b, 9) == 1;
    }
    assert ChronoTime(b, 10) == Some(Clock(Two(b, 10), DigitAt(b, 13), Two(b, 15))) by {
      TwoDigitField(b, 10);
      OneDigitField(b, 13);
      TwoDigitField(b, 15);
    }
  }

  /** A single digit followed by a non-digit is a complete numeric item. */
  lemma OneDigitField(b: seq<byte>, i: nat)
    requires DigitsAt(b, i, 1) && i + 1 < |b| && !IsDigitByte(b[i + 1])
    ensures Numeric(b, i, 2) == Some(Scanned(DigitAt(b, i), i + 1))
  {
    assert DigitsValue(b, i, i + 1) == DigitAt(b, i);
    NumberAt(b, i, 1, 2);
  }

  /** `2016:9:22 16:4:30`: a date-time written without leading zeros in the month and the minute. */
  const SHORT_FIELDS_TEXT: seq<byte> :=
    [0x32, 0x30, 0x31, 0x36, COLON, 0x39, COLON, 0x32, 0x32, SPACE, 0x31, 0x36, COLON, 0x34, COLON, 0x33, 0x30]

  /** The EXIF text `2016:9:22 16:4:30` gives 22 September 2016, 16:04:30 to chrono and nothing to the time crate. */
  lemma ChronoShortFieldsExample()
    ensures TextDateTime(Chrono, SHORT_FIELDS_TEXT) == Some(Civil.DateTime(2016, 9, 22, 16, 4, 30))
    ensures TextDateTime(TimeCrate, SHORT_FIELDS_TEXT).None?
  {
    var raw := RawDateTime(2016, 9, 22, 16, 4, 30);
    assert ChronoParse(SHORT_FIELDS_TEXT) == Some(raw) by {
      ShortFieldsText();
    }
    assert Civil.DaysInMonth(2016, 9) == 30;
    assert BuildDateTime(Chrono, raw) == Some(Civil.DateTime(2016, 9, 22, 16, 4, 30));
  }

  lemma ShortFieldsText()
    ensures ChronoParse(SHORT_FIELDS_TEXT) == Some(RawDateTime(2016, 9, 22, 16, 4, 30))
  {
    var text := SHORT_FIELDS_TEXT;
    assert text[0] == 0x32 && text[1] == 0x30 && text[2] == 0x31 && text[3] == 0x36;
    assert text[5] == 0x39 && text[7] == 0x32 && text[8] == 0x32 && text[10] == 0x31 && text[11] == 0x36;
    assert text[13] == 0x34 && text[15] == 0x33 && text[16] == 0x30;
    ChronoShortFields(text);
    assert Four(text, 0) == 2016 && Two(text, 7) == 22 && Two(text, 10) == 16 && Two(text, 15) == 30;
  }

  function DigitByte(v: int): byte
    requires 0 <= v < 10
  {
    (0x30 + v) as byte
  }

  /** The tens and the units digit of a two-digit field. */
  function Tens(v: int): byte
    requires 0 <= v < 100
  {
    DigitByte(v / 10)
  }

  function Units(v: int): byte
    requires 0 <= v < 100
  {
    DigitByte(v % 10)
  }

  /** The Exif text of a date-time with a year 0..9999. */
  function Format(dt: Civil.DateTime): seq<byte>
    requires 0 <= dt.year < 10000 && Civil.Valid(dt)
  {
    var hi, lo := dt.year / 100, dt.year % 100;
    [Tens(hi), Units(hi), Tens(lo), Units(lo), COLON, Tens(dt.month), Units(dt.month), COLON,
     Tens(dt.day), Units(dt.day), SPACE, Tens(dt.hour), Units(dt.hour), COLON,
     Tens(dt.minute), Units(dt.minute), COLON, Tens(dt.second), Units(dt.second)]
  }

  /** The layout parser reads back every field a formatted date-time was written with. */
  lemma ParseFormat(dt: Civil.DateTime)
    requires 0 <= dt.year < 10000 && Civil.Valid(dt)
    ensures ParseLayout(Format(dt))
         == Some(RawDateTime(dt.year, dt.month, dt.day, dt.hour, dt.minute, dt.second))
  {
    FormatLayout(dt);
    FormatFields(dt);
    ParseUnsigned(Format(dt));
  }

  /** A formatted date-time is unsigned text in the layout. */
  lemma FormatLayout(dt: Civil.DateTime)
    requires 0 <= dt.year < 10000 && Civil.Valid(dt)
    ensures LayoutAt(Format(dt), 0) && IsDigitByte(Format(dt)[0])
  {
    YearHalves(dt.year);
    FieldDigits(dt.year / 100);
    FieldDigits(dt.year % 100);
    FieldDigits(dt.month);
    FieldDigits(dt.day);
    FieldDigits(dt.hour);
    FieldDigits(dt.minute);
    FieldDigits(dt.second);
  }

  /** The numbers at the layout's field positions of a formatted date-time are its fields. */
  lemma FormatFields(dt: Civil.DateTime)
    requires 0 <= dt.year < 10000 && Civil.Valid(dt)
    ensures var b := Format(dt);
      Four(b, 0) == dt.year && Two(b, 5) == dt.month && Two(b, 8) == dt.day
      && Two(b, 11) == dt.hour && Two(b, 14) == dt.minute && Two(b, 17) == dt.second
  {
    YearHalves(dt.year);
    FieldDigits(dt.year / 100);
    FieldDigits(dt.year % 100);
    FieldDigits(dt.month);
    FieldDigits(dt.day);
    FieldDigits(dt.hour);
    FieldDigits(dt.minute);
    FieldDigits(dt.second);
  }

  /** An unsigned text in the layout parses to its six numbers. */
  lemma ParseUnsigned(b: seq<byte>)
    requires LayoutAt(b, 0) && IsDigitByte(b[0])
    ensures ParseLayout(b) == Some(RawDateTime(Four(b, 0), Two(b, 5), Two(b, 8), Two(b, 11), Two(b, 14), Two(b, 17)))
  {
  }

  lemma YearHalves(y: int)
    requires 0 <= y < 10000
    ensures 0 <= y / 100 < 100 && y / 100 * 100 + y % 100 == y
  {
  }

  /** The two digits written for a field are digits, and read back as the field. */
  lemma FieldDigits(v: int)
    requires 0 <= v < 100
    ensures IsDigitByte(Tens(v)) && IsDigitByte(Units(v))
    ensures (Tens(v) as int - 0x30) * 10 + (Units(v) as int - 0x30) == v
  {
  }

  // ---------------------------------------------------------------------
  // Date-time fields

  /** Which library turns the parsed numbers into a date-time. */
  datatype DateLib = TimeCrate | Chrono

  function BuildDateTime(lib: DateLib, raw: RawDateTime): Option<Civil.DateTime> {
    match lib
    case TimeCrate => Civil.TimeCrateDateTime(raw.year, raw.month, raw.day, raw.hour, raw.minute, raw.second)
    case Chrono => Civil.ChronoDateTime(raw.year, raw.month, raw.day, raw.hour, raw.minute, raw.second)
  }

  /**
   * The date-time of a text in `YYYY:MM:DD HH:MM:SS` form, if it names a real
   * instant: the time crate reads the strict layout, chrono its own lenient one.
   */
  function TextDateTime(lib: DateLib, text: seq<byte>): Option<Civil.DateTime> {
    var raw := match lib
      case TimeCrate => ParseLayout(text)
      case Chrono => ChronoParse(text);
    match raw
    case None => None
    case Some(raw) => BuildDateTime(lib, raw)
  }

  /** `is_datetime(f, tag)`: f's date-time when f carries `tag`. */
  function IsDateTime(lib: DateLib, f: Field, tag: Tag): (r: Option<Civil.DateTime>)
    ensures r.Some? ==> f.tag == tag && SingleAscii(f.value).Some?
    ensures r.Some? ==> Civil.Valid(r.value)
    ensures r.Some? && lib == TimeCrate ==> Civil.InTimeRange(r.value)
  {
    if f.tag == tag then
      match SingleAscii(f.value)
      case None => None
      case Some(text) => TextDateTime(lib, text)
    else None
  }

  predicate IsDateTag(t: Tag) {
    t == DATE_TIME_ORIGINAL || t == DATE_TIME || t == DATE_TIME_DIGITIZED
  }

  /** The date-time a primary-IFD field contributes, trying the three tags in the source's order. */
  function FieldDateTime(lib: DateLib, f: Field): (r: Option<Civil.DateTime>)
    ensures r.Some? ==> f.ifdNum == PRIMARY && IsDateTag(f.tag) && Civil.Valid(r.value)
    ensures r.Some? && lib == TimeCrate ==> Civil.InTimeRange(r.value)
    ensures f.ifdNum == PRIMARY && IsDateTag(f.tag) && SingleAscii(f.value).Some? ==>
              r == TextDateTime(lib, f.value.entries[0])
  {
    if f.ifdNum != PRIMARY then None
    else IsDateTime(lib, f, DATE_TIME_ORIGINAL)
           .Or(IsDateTime(lib, f, DATE_TIME))
           .Or(IsDateTime(lib, f, DATE_TIME_DIGITIZED))
  }

  predicate HasDateTime(lib: DateLib, fields: seq<Field>, k: nat) {
    k < |fields| && FieldDateTime(lib, fields[k]).Some?
  }

  predicate IsPrimaryOrientation(fields: seq<Field>, k: nat) {
    k < |fields| && fields[k].tag == ORIENTATION && fields[k].ifdNum == PRIMARY
  }

  /** The field loop of `get_exif_timestamp`: the first field, in reader order, that yields a date-time. */
  function FirstDateTime(lib: DateLib, fields: seq<Field>): (r: Option<Civil.DateTime>)
    ensures r.None? <==> forall k :: 0 <= k < |fields| ==> FieldDateTime(lib, fields[k]).None?
    ensures r.Some? ==> exists k :: 0 <= k < |fields| && FieldDateTime(lib, fields[k]) == r
                                    && forall j :: 0 <= j < k ==> FieldDateTime(lib, fields[j]).None?
    ensures r.Some? && lib == TimeCrate ==> Civil.Valid(r.value) && Civil.InTimeRange(r.value)
  {
    var ok := (k: nat) => HasDateTime(lib, fields, k);
    match Leftmost(|fields|, ok, 0)
    case None =>
      forall k | 0 <= k < |fields| ensures FieldDateTime(lib, fields[k]).None? {
        assert !ok(k);
      }
      None
    case Some(k) =>
      forall j | 0 <= j < k ensures FieldDateTime(lib, fields[j]).None? {
        assert !ok(j);
      }
      assert ok(k);
      FieldDateTime(lib, fields[k])
  }

  /** `Value::get_uint(0)`: the first number of a BYTE, SHORT or LONG value. */
  function FirstUint(v: Value): Option<nat> {
    match v
    case Unsigned(values) => if values == [] then None else Some(values[0])
    case _ => None
  }

  /** k is the last primary Orientation entry in reader order. */
  predicate LastOrientationAt(fields: seq<Field>, k: nat) {
    IsPrimaryOrientation(fields, k) && forall j :: k < j < |fields| ==> !IsPrimaryOrientation(fields, j)
  }

  /**
   * `get_field(Tag::Orientation, In::PRIMARY)` followed by `get_uint(0)`. The
   * exif crate looks fields up in a map keyed by IFD and tag that is filled in
   * reader order, so of duplicated entries the last one is the one found.
   */
  function Orientation(fields: seq<Field>): (r: Option<nat>)
    ensures (forall k :: 0 <= k < |fields| ==> !IsPrimaryOrientation(fields, k)) ==> r.None?
    ensures r.Some? ==> exists k :: 0 <= k < |fields| && LastOrientationAt(fields, k)
                                    && fields[k].tag == ORIENTATION && fields[k].ifdNum == PRIMARY
                                    && fields[k].value.Unsigned? && fields[k].value.values != []
                                    && fields[k].value.values[0] == r.value
  {
    var ok := (k: nat) => IsPrimaryOrientation(fields, k);
    match Rightmost(|fields|, ok, 0)
    case None => None
    case Some(k) =>
      forall j | k < j < |fields| ensures !IsPrimaryOrientation(fields, j) {
        assert !ok(j);
      }
      FirstUint(fields[k].value)
  }

  /** Whatever comes before it, the last primary Orientation entry decides the orientation. */
  lemma OrientationOfLast(fields: seq<Field>, k: nat)
    requires LastOrientationAt(fields, k)
    ensures Orientation(fields) == FirstUint(fields[k].value)
  {
    var ok := (j: nat) => IsPrimaryOrientation(fields, j);
    assert ok(k);
    assert Rightmost(|fields|, ok, 0) == Some(k);
  }

  /** Two primary Orientation entries, 6 then 1: the image is read as upright. */
  lemma DuplicateOrientation()
    ensures Orientation([Field(ORIENTATION, PRIMARY, Unsigned([6])), Field(ORIENTATION, PRIMARY, Unsigned([1]))]) == Some(1)
  {
    var fields := [Field(ORIENTATION, PRIMARY, Unsigned([6])), Field(ORIENTATION, PRIMARY, Unsigned([1]))];
    OrientationOfLast(fields, 1);
  }
}
