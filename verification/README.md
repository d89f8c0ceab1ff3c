# Photo catalog indexing, modelled in Dafny

This project models the indexing core of a self-hosted family photo server.
That core comes from four code bases: the current Rust server, the older
Rust scan it replaced, and two Kotlin servers that came before both. The
model covers:

- **Capture-time resolution.** For each media file the server resolves a
  capture time, trying three sources in order:
  - a Google Takeout `.json` sidecar, looked up by bare file name in the
    process's working directory, not in the media file's directory;
  - the EXIF date-time tags;
  - three file-name heuristics (regular expressions); the older scan has four.
- **Catalog reconciliation.** One scan per user walks the user's directory
  and turns files into catalog rows. A reconciliation pass then inserts the
  new rows in chunks of 512 and deletes rows whose file has disappeared.
- **Photo paths.** The full name (`folder/name`) and the storage paths built
  from it.
- **Timestamp serialization.** The Unix-timestamp serde adapter for date-times.
- **Derivative generation.**
  - A per-photo in-flight set for thumbnails (and one for previews). A
    request waits while its photo's id is in the set, then adds the id while
    it generates and removes it afterwards. The membership check and the
    insert are not atomic, so two concurrent requests for the same photo can
    still both generate.
  - The decision table of the thumbnail and preview generators: external HEIF
    tool, video frame extraction, or in-process decode. It includes the EXIF
    orientation correction and the encoder chosen from the target path.

Time is the proleptic Gregorian calendar in UTC, proved against an
independent inverse (`Civil.FromUnix`). Each date library keeps its own year
range:

- the `time` crate covers years -9999..9999;
- chrono covers years -262144..262143.

Regular expressions are modelled as left-to-right scanners. Each comes with
a lemma stating which match the regex engine reports.

Every effect is an input to the model rather than something it performs:

- the file system (which sidecars exist and what they hold, the EXIF fields of
  each file, the MIME table, which storage paths exist);
- the directory walk (a sequence of entries);
- database call outcomes;
- external tool outcomes (started or not, exited, timed out, or the wait
  failed).

Rust `unwrap`/`expect` failures are modelled as `Outcome.Panic`. Recoverable
errors use `Option` and `Result`.

Three behaviours of the code shape the model:

- A failed insert chunk aborts the run through `expect`.
- EXIF date-times come from the first qualifying field in reader order. Each
  field is tried against the three date-time tags in turn.
- A timed-out video thumbnail tool is not killed.

## Model

| member | source | states |
|---|---|---|
| Civil.ToUnix | src/utils/primitive_date_time_serde.rs:20 | A date-time read as UTC gives seconds since the Unix epoch: the epoch itself is 0, and for a valid time of day the floor quotient by 86400 is the day count since 1970-01-01 and the remainder the second of the day |
| Civil.FromUnix | src/file_scan/timestamp.rs:18-19 | Every second count, negative ones included, has a valid UTC date-time, and that date-time converts back to the same count |
| Civil.FromUnixToUnix | src/utils/primitive_date_time_serde.rs:20-28 | Converting a valid date-time to Unix seconds and back returns it unchanged |
| Civil.ToUnixInjective | src/utils/primitive_date_time_serde.rs:20 | Two valid date-times with the same Unix seconds are equal |
| Civil.ToUnixIsPosix | src/utils/primitive_date_time_serde.rs:20 | From 1970 on, the seconds agree with the POSIX "Seconds Since the Epoch" expression (POSIX.1-2017, Base Definitions, section 4.16) evaluated with C's truncating division |
| Civil.TimeRangeBounds | src/file_scan/timestamp.rs:150 | -9999-01-01 00:00:00 and 9999-12-31 23:59:59 lie at -377705116800 and 253402300799 seconds |
| Civil.TimeRangeIsUnixRange | src/file_scan/timestamp.rs:150 | A valid date-time's year is within -9999..9999 exactly when its seconds are within those two bounds |
| Civil.TimeFromUnix | src/file_scan/timestamp.rs:18-20 | `from_unix_timestamp` succeeds exactly inside the time crate's range, and then gives the valid in-range date-time of those seconds |
| Civil.ChronoFromUnix | src/utils/data_scan.rs:86 | chrono's conversion succeeds exactly when the date-time of the seconds has a year within -262144..262143, and that date-time converts back to the same seconds |
| Civil.ChronoCoversTimeRange | src/utils/data_scan.rs:86 | Inside the time crate's range, chrono's conversion gives the same date-time as the time crate's |
| Civil.TimeCrateDateTime | src/file_scan/timestamp.rs:127-130 | Parsed components give a date-time exactly when they form a valid date and time with a year within -9999..9999, and the date-time has exactly those components |
| Civil.ChronoDateTime | src/utils/data_scan.rs:230 | chrono accepts second 60 as a leap second and stores it on second 59; otherwise the components give a date-time exactly when they are valid |
| Ints.AsI64 | src/file_scan/timestamp.rs:18 | `as i64` keeps values below 2^63, makes larger ones negative, and keeps the value modulo 2^64 |
| Ints.LongToInt | src/main/kotlin/net/theluckycoder/familyphotos/model/Photo.kt:52 | `Long.toInt()` gives a 32-bit signed value equal to the input modulo 2^32, and leaves 32-bit values unchanged |
| Text.AsciiLower | src/thumbnail/generate.rs:84 | Keeps the length; changes exactly the letters 'A'..'Z', each to its lower-case letter |
| Text.AsciiLowerIdempotent | src/previews/generate.rs:68 | Lower-casing an extension twice gives what lower-casing once gives |
| Text.TrimEndMatches | src/file_scan/timestamp.rs:38 | The result no longer ends with the pattern, and the input is the result followed by some number of copies of the pattern |
| Text.TrimEndMatchesCopies | src/utils/data_scan.rs:188-189 | Appending any number of copies of the pattern does not change what trimming leaves |
| Text.TrimStart | src/file_scan/timestamp.rs:39 | The result is a suffix of the input that does not start with whitespace, and everything removed is whitespace |
| Text.TrimEnd | src/file_scan/timestamp.rs:39 | The result is a prefix of the input that does not end with whitespace, and everything removed is whitespace |
| Text.TrimUntouched | src/file_scan/timestamp.rs:37-39 | A stem with no whitespace at either end is not changed by `trim` |
| Text.RsplitOnce | src/thumbnail/generate.rs:46 | None exactly when the character is absent; otherwise the input is before + c + after, with no c in after |
| Paths.SplitAtDot | src/file_scan/timestamp.rs:36-40 | With an extension, the name is stem + "." + extension, with a non-empty stem and a dot-free extension; without one, the stem is the whole name |
| Paths.SplitAtDotOf | src/file_scan/timestamp.rs:36-40 | A non-empty stem and a dot-free extension, joined by a dot, split back into exactly themselves |
| Paths.StemAndExtension | src/utils/data_scan.rs:184-193 | A stem exists exactly when a file name does, and the stem and extension rejoin into that file name |
| Search.Leftmost | src/file_scan/timestamp.rs:118 | The position found passes the test and no earlier one does; None only when no position in range passes |
| Search.Rightmost | src/thumbnail/generate.rs:135 | The position found passes the test and no later one does; None only when no position in range passes |
| Mime.TopLevelType | src/file_scan/timestamp.rs:82-83 | The table's type for the lower-cased extension, or `application` (octet-stream) when the table has no entry |
| Exif.SingleAscii | src/file_scan/timestamp.rs:59-72 | A value yields text exactly when it is ASCII-typed with at least one entry, every later entry is empty, and the first entry is valid UTF-8; the text is the first entry |
| Exif.ParseLayout | src/file_scan/timestamp.rs:57 | Only 19- or 20-byte ASCII texts parse: the layout with or without a leading sign |
| Exif.ParseFormat | src/file_scan/timestamp.rs:57 | Parsing the `YYYY:MM:DD HH:MM:SS` text of a date-time with a year 0..9999 gives back all six of its fields |
| Exif.WhitespaceLen | src/utils/data_scan.rs:230 | The length of the white-space character at a position, as Rust's `char::is_whitespace` sees it in UTF-8: none at a digit, colon or sign, one at a space |
| Exif.SkipSpaces | src/utils/data_scan.rs:230 | chrono's `trim_start`: the first position at or after the start where no white space begins, and the start itself when none begins there |
| Exif.DigitRun | src/utils/data_scan.rs:230 | The longest run of at most `max` digits from the start: all digits, and stopped by a non-digit, the end, or the limit |
| Exif.Number | src/utils/data_scan.rs:230 | chrono's `scan::number`: an error exactly when no digit starts there or the value leaves i64; otherwise up to `max` digits, read as a number below 10 to the number of digits |
| Exif.Numeric | src/utils/data_scan.rs:230 | A field other than the year: white space skipped, then up to `width` digits, so a value below 10 to the `width` |
| Exif.YearItem | src/utils/data_scan.rs:230 | chrono's `%Y`: a negative year needs a `-`; without a sign the year has at most four digits |
| Exif.Literal | src/utils/data_scan.rs:230 | A literal of the format matches exactly that byte and nothing else |
| Exif.ChronoTime | src/utils/data_scan.rs:230 | chrono's `%T` at the end of the text: hour, minute and second of at most two digits each |
| Exif.ChronoParse | src/utils/data_scan.rs:230 | chrono's reading of `%Y:%m:%d %T`: month, day, hour, minute and second have at most two digits, and at least 11 bytes are needed |
| Exif.ChronoReadsLayout | src/utils/data_scan.rs:230 | Every text the time crate's strict layout reads, chrono reads to the same six numbers |
| Exif.ChronoParseFormat | src/utils/data_scan.rs:230 | chrono reads back all six fields of the `YYYY:MM:DD HH:MM:SS` text of a date-time with a year 0..9999 |
| Exif.ChronoShortFields | src/utils/data_scan.rs:230 | A text with a one-digit month and minute is read by chrono and rejected by the strict layout |
| Exif.ChronoShortFieldsExample | src/utils/data_scan.rs:230 | The EXIF text `2016:9:22 16:4:30` gives chrono 2016-09-22 16:04:30 and gives the time crate nothing |
| Exif.IsDateTime | src/file_scan/timestamp.rs:74-78 | A field yields a date-time only when it carries the requested tag and a single ASCII string; the date-time is valid, and in the time crate's range when that crate builds it |
| Exif.FieldDateTime | src/file_scan/timestamp.rs:94-101 | Only primary-IFD fields with one of the three date tags yield a date-time. For such a field holding a single ASCII string, the result is that text read as a date-time |
| Exif.FirstDateTime | src/file_scan/timestamp.rs:93-105 | None exactly when no field yields a date-time; otherwise the date-time of the first field, in reader order, that yields one |
| Exif.Orientation | src/thumbnail/generate.rs:135-137 | Without a primary Orientation entry there is no value; a value is the first number of the last primary Orientation entry, as the exif crate's lookup map keeps the last duplicate |
| Exif.OrientationOfLast | src/thumbnail/generate.rs:135-137 | For every field list, the orientation is exactly `get_uint(0)` of the last primary Orientation entry, whatever the earlier entries hold |
| Exif.DuplicateOrientation | src/thumbnail/generate.rs:135-137 | With Orientation 6 followed by Orientation 1 in the primary IFD, the image is read as upright (1) |
| FilenameHeuristics.SkipNonDigits | src/file_scan/timestamp.rs:111 | A `\D*` run stops at the first digit at or after its start, or at the end |
| FilenameHeuristics.DateHourGroupsComplete | src/file_scan/timestamp.rs:111 | Any match of the date-hour pattern at a position is the one the scanner reports: the non-digit runs leave the regex no choice |
| FilenameHeuristics.DateHourNeedsRoom | src/file_scan/timestamp.rs:111 | A date-hour match needs 14 characters from its start |
| FilenameHeuristics.Captured | src/file_scan/timestamp.rs:119-126 | The six captures, concatenated, are exactly 14 ASCII digits |
| FilenameHeuristics.DateHourTimestamp | src/file_scan/timestamp.rs:118-135 | A result is a valid date-time within the time crate's range |
| FilenameHeuristics.DateHourLeftmost | src/file_scan/timestamp.rs:118-135 | With a match at k and none further left, the result is the 14 captured digits parsed as `[year][month][day][hour][minute][second]` |
| FilenameHeuristics.DateHourNone | src/file_scan/timestamp.rs:118 | A stem with no date-hour match anywhere gets no result from this heuristic |
| FilenameHeuristics.DateTimestamp | src/file_scan/timestamp.rs:137-145 | A result is valid, in range, and at midnight |
| FilenameHeuristics.DateLeftmost | src/file_scan/timestamp.rs:137-145 | The leftmost eight digits are read as year, month and day, and nothing else decides the result |
| FilenameHeuristics.LastWindow | src/file_scan/timestamp.rs:113 | The greedy `.*` takes the last 13-digit window it can reach without crossing a line feed |
| FilenameHeuristics.MillisCapture | src/file_scan/timestamp.rs:147 | None exactly when the stem holds no 13-digit run; otherwise the captured position starts one |
| FilenameHeuristics.MillisLeftmost | src/file_scan/timestamp.rs:113 | The capture is the last reachable window, scanning from the leftmost 13-digit window |
| FilenameHeuristics.MillisTimestamp | src/file_scan/timestamp.rs:147-153 | A result exists exactly when a window is captured; its Unix seconds are the 13 digits divided by 1000 |
| FilenameHeuristics.MillisAlwaysConverts | src/file_scan/timestamp.rs:148-151 | The millisecond heuristic succeeds exactly when the stem holds 13 consecutive digits: neither the i64 parse nor the range check can fail |
| FilenameHeuristics.RegexTimestamp | src/file_scan/timestamp.rs:108-156 | Without a file stem there is no result. Otherwise the date-hour heuristic's result wins; without it the date heuristic's; without both the millisecond heuristic's. A result is a valid date-time within the time crate's range |
| FilenameExamples.ExampleCompact | src/file_scan/timestamp.rs:171-174 | `IMG_20160922_160430.jpg` resolves to 2016-09-22 16:04:30 |
| FilenameExamples.ExampleDashed | src/file_scan/timestamp.rs:176-179 | `IMG_2016-09-22-16-04-30.jpg` resolves to 2016-09-22 16:04:30 |
| FilenameExamples.ExampleDateOnly | src/file_scan/timestamp.rs:181-184 | `20160922.jpg` is too short for the date-hour pattern and resolves to 2016-09-22 00:00:00 |
| FilenameExamples.ExampleMillis | src/file_scan/timestamp.rs:186-189 | `random-1474560270000.jpg` resolves to 2016-09-22 16:04:30 through the millisecond heuristic |
| FilenameExamples.ExampleMixed | src/file_scan/timestamp.rs:191-194 | `random-IMG_2016-09-22-160430 (5).jpg` resolves to 2016-09-22 16:04:30 |
| FilenameExamples.MillisNoDate | src/file_scan/timestamp.rs:137-145 | In `random-1474560270000`, the leftmost eight digits name month 56, so the date heuristic gives nothing |
| Timestamp.SidecarName | src/file_scan/timestamp.rs:34-41 | A sidecar name exists exactly when the path has a stem and an extension, and it ends with `.<extension>.json` |
| Timestamp.SidecarIgnoresCopies | src/file_scan/timestamp.rs:38 | `x(1)`, `x(1)(1)`, ... look up the sidecar of `x` |
| Timestamp.SidecarOfPlainName | src/file_scan/timestamp.rs:34-41 | For a name with no copy suffix and no surrounding blanks, the sidecar is the file name plus `.json` |
| Timestamp.SidecarIgnoresDirectory | src/file_scan/timestamp.rs:34-43 | The sidecar is found by file name alone: media files of the same name in different directories get the same sidecar name and the same sidecar time |
| Timestamp.JsonTimestamp | src/file_scan/timestamp.rs:43-53 | A value only comes from an existing, well-formed sidecar |
| Timestamp.JsonPreference | src/file_scan/timestamp.rs:48 | The photo-taken time is preferred; the creation time is used only when it is absent |
| Timestamp.ExifTimestamp | src/file_scan/timestamp.rs:81-106 | For a file whose extension the MIME table calls `image` and whose EXIF data is readable, the result is the first date-time field in reader order, read by the time crate. Any other file gets nothing. A value is valid, in range, and comes from one of the file's fields |
| Timestamp.Resolve | src/file_scan/timestamp.rs:13-24 | Every resolved capture time is valid and within the time crate's range |
| Timestamp.StrategyOrder | src/file_scan/timestamp.rs:13-24 | A sidecar value that converts wins. One that does not convert skips EXIF and goes to the file name. Without a sidecar value, EXIF comes before the file name |
| Timestamp.SidecarShadowsExif | src/file_scan/timestamp.rs:14-22 | Once a sidecar gives a value, the file's EXIF data cannot change the result |
| Timestamp.NonImagesSkipExif | src/file_scan/timestamp.rs:82-85 | The EXIF data of a file the MIME table does not call an image is never read |
| Timestamp.SidecarWrapsAround | src/file_scan/timestamp.rs:18 | A sidecar time of `u64::MAX` wraps to -1 and resolves to 1969-12-31 23:59:59 |
| Timestamp.ResolveNone | src/file_scan/timestamp.rs:13-24 | No capture time exactly when the file name gives none and the sidecar value (or, without one, EXIF) gives none |
| LegacyHeuristics.SplitDateHourTimestamp | src/utils/data_scan.rs:269-278 | A result of the eight-digits, any-character, six-digits heuristic is a valid date-time |
| LegacyHeuristics.SplitDateHourLeftmost | src/utils/data_scan.rs:260 | The leftmost match's fourteen digits are read as year, month, day, hour, minute and second |
| LegacyHeuristics.DashedTimestamp | src/utils/data_scan.rs:280-284 | A result of the dashed heuristic is a valid date-time |
| LegacyHeuristics.DashedLeftmost | src/utils/data_scan.rs:261 | The leftmost `YYYY-MM-DD-HH-MM-SS` match is read field by field |
| LegacyHeuristics.MidnightTimestamp | src/utils/data_scan.rs:286-294 | A result of the eight-digit heuristic is valid and at midnight |
| LegacyHeuristics.MidnightLeftmost | src/utils/data_scan.rs:262 | The leftmost eight digits are read as year, month and day at 00:00:00 |
| LegacyHeuristics.TruncatedMillisTimestamp | src/utils/data_scan.rs:296-301 | A result needs a captured 13-digit window, and its Unix seconds are the window's first nine digits |
| LegacyHeuristics.TruncatedMillisAlwaysConverts | src/utils/data_scan.rs:298 | Nine digits always fit chrono's range, so this heuristic fails only when no 13-digit run exists |
| LegacyHeuristics.TruncatedMillisIsTenth | src/utils/data_scan.rs:297-298 | The seconds read are a tenth of the seconds the millisecond value stands for (four digits dropped, not three) |
| LegacyHeuristics.LegacyRegexTimestamp | src/utils/data_scan.rs:258-304 | The first heuristic with a result decides, in the order split date-hour, dashed, midnight, truncated milliseconds. There is no result exactly when all four fail. Results are valid |
| LegacyExamples.MillisTruncated | src/utils/data_scan.rs:298 | `random-1474560270000` gives 1974-09-03 16:00:27 through the fourth heuristic |
| LegacyExamples.LegacyMillisExample | src/utils/data_scan.rs:296-301 | The older chain gives `random-1474560270000` the date 1974-09-03 16:00:27; the newer heuristic gives 2016-09-22 16:04:30 |
| LegacyScan.LegacySidecarName | src/utils/data_scan.rs:184-193 | Panics exactly when the path lacks a stem or an extension; otherwise the name ends with `.<extension>.json` |
| LegacyScan.EditedCopiesShareSidecar | src/utils/data_scan.rs:188-189 | Edited files and copies (`x(1)`, `x-editat`, `x(1)-editat`, ...) all share the sidecar of `x` |
| LegacyScan.LegacyJson | src/utils/data_scan.rs:183-210 | A missing sidecar gives nothing. A malformed one, or one with neither time, panics. With both times the minimum is taken, otherwise the one present |
| LegacyScan.LegacyExif | src/utils/data_scan.rs:236-256 | For any file with readable EXIF data, whatever its MIME type, the result is the first date-time field's value as chrono parses and builds it |
| LegacyScan.LegacyTimestamp | src/utils/data_scan.rs:83-88 | Any date-time produced is valid |
| LegacyScan.LegacyStrategyOrder | src/utils/data_scan.rs:83-88 | A sidecar value wins, or panics when chrono cannot represent it. Without a sidecar file, EXIF comes first, then the file name. A sidecar panic ends the chain |
| LegacyScan.MissingExtensionPanics | src/utils/data_scan.rs:192 | A file without an extension, such as `README`, panics the older chain |
| LegacyScan.LegacyItemRecord | src/utils/data_scan.rs:73-113 | Errors and skipped entries give no row. A timestamp panic propagates. A row is owned by the user with id 0 |
| LegacyScan.LegacyRecords | src/utils/data_scan.rs:73-114 | At most one row per walk item, each owned by the user with id 0 |
| LegacyScan.PanicEndsUserScan | src/utils/data_scan.rs:99-109 | One panicking item ends the user's scan, whatever the other items hold |
| LegacyScan.LegacyScanUser | src/utils/data_scan.rs:64-118 | A missing root gives no rows when it can be created and panics when it cannot; otherwise the walk's rows |
| LegacyScan.LegacyScanAll | src/utils/data_scan.rs:42-59 | A user whose thread panicked is left out; every other user's rows are kept, and nothing else appears |
| LegacyScan.LegacyScanAllConcat | src/utils/data_scan.rs:48-58 | Each user's result does not depend on the other users |
| Photos.FullName | src/model/photo.rs:31-38 | `folder/name` with a folder, the bare name without one; it always ends with the name |
| Photos.FullNameInjective | src/model/photo.rs:31-38 | With slash-free names and folders, the full name determines both folder and name |
| Photos.PartialPath | src/model/photo.rs:40-46 | An error exactly when the user does not own the photo; otherwise `user_name/full_name` |
| Photos.PartialPathInjective | src/model/photo.rs:45 | Within one user's directory, equal partial paths mean equal full names |
| Photos.StorePath | src/main/kotlin/net/theluckycoder/familyphotos/model/Photo.kt:33-42 | Throws exactly when the user is not the owner; otherwise `photos/userName/` followed by the full name |
| Photos.StorePathEndsWithFullName | src/main/kotlin/net/theluckycoder/homeserver/photos/model/Photo.kt:30-39 | The owner's store path ends with `/` and the full name |
| Photos.StorePathIsPartialPath | src/main/kotlin/net/theluckycoder/familyphotos/model/Photo.kt:24-42 | The Kotlin store path is the Rust partial path of the same photo under `photos/`, and the two fail together |
| Photos.KHashCode | src/main/kotlin/net/theluckycoder/familyphotos/model/Photo.kt:52 | The hash is a 32-bit value equal to the id modulo 2^32 |
| Photos.EqualsHashContract | src/main/kotlin/net/theluckycoder/familyphotos/model/Photo.kt:44-52 | Equality is reflexive, symmetric and transitive, and equal photos hash alike |
| Photos.KEquals | src/main/kotlin/net/theluckycoder/familyphotos/model/Photo.kt:44-50 | Equality compares ids only: a photo equals itself, and equal photos have the same `hashCode` |
| Photos.HashCollision | src/main/kotlin/net/theluckycoder/familyphotos/model/Photo.kt:49-52 | Ids 2^32 apart hash alike while the photos stay unequal |
| Seqs.Filter | src/file_scan/data_scan.rs:130 | Keeps exactly the elements that pass, never adds any, and never grows |
| Seqs.FilterConcat | src/file_scan/data_scan.rs:130 | Filtering a concatenation filters each part |
| Seqs.FilterAll | src/file_scan/data_scan.rs:68 | Nothing is dropped when every element passes |
| Seqs.Chunks | src/file_scan/data_scan.rs:139 | The chunks concatenate back to the input; each holds 1..512 elements, and all but the last hold exactly 512 |
| Scan.FileSize | src/file_scan/data_scan.rs:96 | 0 without metadata; otherwise the length reinterpreted as an i64 (unchanged below 2^63) |
| Scan.ParseImage | src/file_scan/data_scan.rs:85-109 | A row exists exactly when a capture time resolves and, at depth 2, the parent name is available. The row has id 0, no caption, the user as owner, and the entry's name, size and capture time. It has a folder exactly at depth 2, the parent's name |
| Scan.ItemRecord | src/file_scan/data_scan.rs:68-76 | A row produced for one walk item is owned by the user and has id 0 |
| Scan.Records | src/file_scan/data_scan.rs:68-77 | At most one row per walk item, each owned by the user with id 0 |
| Scan.RecordsConcat | src/file_scan/data_scan.rs:73-77 | Two runs of walk items yield the rows of each, in turn |
| Scan.RecordsMembership | src/file_scan/data_scan.rs:68-77 | A row is in the result exactly when some walk item produces it |
| Scan.Eligible | src/file_scan/data_scan.rs:66-72 | An entry that reaches `parse_image` is within depth 2 and not a directory; a file within the depth that is skipped is named `<stem>.json` with a non-empty stem |
| Scan.JsonNamesSkipped | src/file_scan/data_scan.rs:65-70 | Every file named `<stem>.json` with a non-empty stem is skipped |
| Scan.SkippedItems | src/file_scan/data_scan.rs:68-72 | Walk errors, directories, `.json` files and entries below the depth limit give no row |
| Scan.ScanUser | src/file_scan/data_scan.rs:58-83 | Panics exactly when the root is missing and cannot be created; a created root gives no rows; a present one gives the walk's rows |
| Scan.ScanAll | src/file_scan/data_scan.rs:41-56 | Panics exactly when some user's scan does; otherwise one result per user, in user order |
| Reconcile.ExistingNames | src/file_scan/data_scan.rs:116-119 | One full name per catalog row, of every owner, in order |
| Reconcile.ExistingNamesMembership | src/file_scan/data_scan.rs:116-119 | A name is listed exactly when some catalog row has it as its full name |
| Reconcile.KeepNew | src/file_scan/data_scan.rs:130 | Keeps exactly the found rows whose full name is not among the catalog's names |
| Reconcile.KeepNewKeepsAll | src/file_scan/data_scan.rs:130 | Rows that are all new are kept as they are, in order |
| Reconcile.KeepNewConcat | src/file_scan/data_scan.rs:121-130 | Retaining distributes over a split of the found rows |
| Reconcile.StoredPathIsPartialPath | src/file_scan/data_scan.rs:151 | For the user's own rows, the checked path is the row's `partial_path` |
| Reconcile.RemovedIds | src/file_scan/data_scan.rs:146-155 | An id is listed exactly when it belongs to a catalog row of the user whose stored path does not exist |
| Reconcile.InsertOps | src/file_scan/data_scan.rs:139-143 | One insert call per chunk, in chunk order |
| Reconcile.InsertedRowsOfChunks | src/file_scan/data_scan.rs:139-143 | The insert calls carry exactly the chunked rows, in order |
| Reconcile.UserOps | src/file_scan/data_scan.rs:122-168 | A user costs no call exactly when no found row is new and no row is removed; with removed ids the last call is the delete of exactly those ids; without them every call is an insert |
| Reconcile.UserOpsShape | src/file_scan/data_scan.rs:132-168 | Per user: each insert holds 1..512 rows, together exactly the new rows in order; then at most one delete, last, with exactly the removed ids, and never empty |
| Reconcile.PlanMembership | src/file_scan/data_scan.rs:121 | A call is in the plan exactly when it is one of some scanned user's calls |
| Reconcile.Plan | src/file_scan/data_scan.rs:111-168 | The plan is empty exactly when every scanned user's calls are empty |
| Reconcile.PlanRespectsCatalog | src/file_scan/data_scan.rs:111-170 | No inserted row shares a full name with any catalog row, and each comes from a scan result. Every deleted id is a catalog row of a scanned user whose file is missing |
| Reconcile.CataloguedRowsKept | src/file_scan/data_scan.rs:146-168 | A catalog row whose file exists for every scanned user owning it is never deleted |
| Reconcile.CrossUserShadowing | src/file_scan/data_scan.rs:116-130 | A found row sharing a full name with another user's catalog row is never inserted: the names are compared across users |
| Reconcile.Execute | src/file_scan/data_scan.rs:139-167 | The calls sent are a prefix of the plan. The run completes exactly when every call succeeds. Otherwise it stops at the first failure |
| Reconcile.RunKeepsCataloguedRows | src/file_scan/data_scan.rs:111-170 | However the run ends, a catalog row whose file still exists remains in the catalog |
| StartSync.Numbered | src/main/kotlin/net/theluckycoder/familyphotos/FamilyPhotosApplication.kt:70 | Saving new rows gives each one an id no other row has, in order, and changes nothing else. A counter stands in for the random ids of `IdGenerator` |
| StartSync.SaveAll | src/main/kotlin/net/theluckycoder/homeserver/photos/PhotosApplication.kt:69 | The saved rows are appended with fresh ids, and the id counter advances by their number |
| StartSync.DeleteAll | src/main/kotlin/net/theluckycoder/familyphotos/FamilyPhotosApplication.kt:81 | Exactly the rows whose ids are among the deleted rows' ids go |
| StartSync.OwnedBy | src/main/kotlin/net/theluckycoder/familyphotos/FamilyPhotosApplication.kt:58 | Exactly the rows the user owns |
| StartSync.SyncUser | src/main/kotlin/net/theluckycoder/familyphotos/FamilyPhotosApplication.kt:55-83 | A found photo is saved exactly when none of the user's rows shares its full name. A row is deleted exactly when the user owns it and its file is missing. Afterwards the catalog is the old rows plus the saved ones, minus the deleted ids |
| StartSync.StorePathsDefined | src/main/kotlin/net/theluckycoder/familyphotos/FamilyPhotosApplication.kt:74-77 | `getStorePath` never throws during a pass: the existing rows all belong to the user |
| StartSync.KeptUnlessMissing | src/main/kotlin/net/theluckycoder/homeserver/photos/PhotosApplication.kt:72-81 | A row of another user, or one whose file exists, survives the pass |
| StartSync.SavedRowsSurvive | src/main/kotlin/net/theluckycoder/familyphotos/FamilyPhotosApplication.kt:58-82 | Deletions come from the snapshot taken before saving, so every row saved in a pass is there after it |
| StartSync.SyncUserWellKeyed | src/main/kotlin/net/theluckycoder/familyphotos/FamilyPhotosApplication.kt:64-82 | A pass keeps row ids distinct and below the next free id, the model's stand-in for fresh random ids |
| StartSync.NamesComparedPerUser | src/main/kotlin/net/theluckycoder/homeserver/photos/PhotosApplication.kt:57-65 | Unlike the Rust scans, names are compared per user: a photo sharing its full name only with another user's row is saved |
| StartSync.SyncUsers | src/main/kotlin/net/theluckycoder/homeserver/photos/PhotosApplication.kt:54-82 | The passes never change the users and never move the id counter back |
| StartSync.ManageStartData | src/main/kotlin/net/theluckycoder/familyphotos/FamilyPhotosApplication.kt:41-84 | The initial users are seeded exactly when there are no users; otherwise the users are left unchanged |
| StartSync.SyncUsersKeeps | src/main/kotlin/net/theluckycoder/familyphotos/FamilyPhotosApplication.kt:55-83 | A row whose file exists for every user owning it survives the whole run |
| UnixSerde.Serialize | src/utils/primitive_date_time_serde.rs:16-21 | An in-range date-time serializes to an i64 within the time crate's bounds whose calendar date-time is the input |
| UnixSerde.Deserialize | src/utils/primitive_date_time_serde.rs:24-30 | Succeeds exactly for an integer within the time crate's range, giving that instant. A non-i64 is a type error. An out-of-range i64 is a range error |
| UnixSerde.DeserializeSerialize | src/utils/primitive_date_time_serde.rs:16-30 | Deserializing what was serialized gives the date-time back |
| UnixSerde.SerializeDeserialize | src/utils/primitive_date_time_serde.rs:20-27 | Serializing what was deserialized gives the same timestamp back |
| UnixSerde.SerializeOption | src/utils/primitive_date_time_serde.rs:48-55 | `None` serializes to null; `Some` serializes as the plain adapter does |
| UnixSerde.DeserializeOption | src/utils/primitive_date_time_serde.rs:57-71 | Null is `None`; anything else succeeds or fails exactly as the plain deserializer does |
| UnixSerde.OptionRoundTrips | src/utils/primitive_date_time_serde.rs:42-71 | The option adapter round-trips in both directions |
| UnixSerde.OutOfRangeRefused | src/utils/primitive_date_time_serde.rs:63-70 | Every i64 outside years -9999..9999 is refused with a range error by both adapters |
| Gate.Request | src/thumbnail/manager.rs:16-51 | Waits exactly while the id is in flight. An existing target returns true without generating. Otherwise the id is in flight during generation, the result is the generator's (false on a panic), and the set afterwards equals the set before |
| Gate.OnlyOwnIdTouched | src/previews/manager.rs:32-41 | Only the requested id's membership changes, and only during generation |
| Gate.Serve | src/thumbnail/manager.rs:22-29 | Sequential requests all get served exactly when none of their ids is in flight at the start, with one result each |
| Gate.SequentialResults | src/previews/manager.rs:16-47 | Served one at a time from an empty set, each request gets true for an existing target, otherwise its generator's result |
| Derivatives.RouteFor | src/thumbnail/generate.rs:84-121 | Panics exactly without an extension. A video MIME type wins. Otherwise a lower-cased `heic`/`heif` goes to the HEIF tool. Everything else is decoded in-process |
| Derivatives.RouteIgnoresCase | src/previews/generate.rs:68-88 | Extensions that agree up to ASCII case take the same route |
| Derivatives.ReadOrientation | src/thumbnail/generate.rs:123-140 | An orientation needs an extension the MIME table calls `image` and readable EXIF data; with an image extension and EXIF data present it is exactly what the EXIF lookup gives: the first value of the last primary Orientation entry |
| Derivatives.ReadsLast | src/thumbnail/generate.rs:135-137 | For an image whose fields hold a primary Orientation entry, the value read is the first number of the last such entry, whatever earlier duplicates hold |
| Derivatives.RotationFor | src/thumbnail/generate.rs:149-154 | The EXIF orientations that only turn the image (3, 6, 8) are turned upright by the degrees the standard gives. Mirrored, undefined or absent orientations are left unrotated |
| Derivatives.EncoderFor | src/thumbnail/generate.rs:156-169 | No encoder exactly when the save path has no dot; a JPEG encoder always has quality 70 |
| Derivatives.EncoderForName | src/previews/generate.rs:140-153 | JPEG at 70 exactly for the case-sensitive extensions `jpg` and `jpeg` after the last dot; any other extension gets the inferred format |
| Derivatives.Rendered | src/thumbnail/generate.rs:114-170 | In-process: a decode failure returns false. Without a dot in the target nothing is written. Otherwise the image is turned by the file's orientation and written with the chosen encoder. A JPEG target whose file cannot be created panics |
| Thumbnails.SizeArgument | src/thumbnail/generate.rs:18-23 | The size given to the tools is the decimal text of 500 |
| Thumbnails.HeicCommand | src/thumbnail/generate.rs:21-25 | `heif-thumbnailer` is given `-s` with the thumbnail size, then the load path and the save path as its last two arguments; it writes only to the save path |
| Thumbnails.HeicThumbnail | src/thumbnail/generate.rs:20-36 | A started tool's exit status is reported as its success flag, and a timeout as false. A wait error is an error, after a kill and a reap |
| Thumbnails.IntermediatePath | src/thumbnail/generate.rs:42-48 | An error exactly when the save path has no dot; otherwise the text before the last dot followed by `.jpg` |
| Thumbnails.IntermediateOf | src/thumbnail/generate.rs:46-47 | A dot-free extension is replaced by `jpg` |
| Thumbnails.IntermediateIdempotent | src/thumbnail/generate.rs:42-48 | The intermediate of an intermediate is itself |
| Thumbnails.JpgTargetIsIntermediate | src/thumbnail/generate.rs:42-76 | A `.jpg` target is its own intermediate: the tool writes the target, which is then deleted and written again |
| Thumbnails.VideoCommand | src/thumbnail/generate.rs:50-57 | `ffmpegthumbnailer` reads the load path (`-i`), writes the intermediate frame file (`-o`) and nothing else, at the thumbnail size (`-s`) |
| Thumbnails.VideoThumbnail | src/thumbnail/generate.rs:38-77 | Succeeds exactly when the path has a dot, the tool starts, and either it exits (any status) and the frame is decoded, deleted and saved, or the wait fails and kill and reap succeed. A timeout is an error |
| Thumbnails.ExitStatusIgnored | src/thumbnail/generate.rs:61-62 | The frame path does not depend on the tool's exit status |
| Thumbnails.GenerateThumbnail | src/thumbnail/generate.rs:79-121 | Per route: the video frame via the intermediate; the HEIF tool, true only for a successful exit; or the in-process render. It panics only for a missing extension or an uncreatable JPEG target |
| Previews.SizeArgumentNotNumeric | src/previews/generate.rs:22 | The size given to the preview tools is the text `PREVIEW_TARGET_SIZE`, which is not a number, unlike the thumbnails' `500` |
| Previews.HeicCommand | src/previews/generate.rs:20-24 | `heif-previewer` is given `-s` with the literal text `PREVIEW_TARGET_SIZE`, then the load path and the save path as its last two arguments; it writes only to the save path |
| Previews.HeicPreview | src/previews/generate.rs:19-35 | A started tool's exit status is reported as its success flag, and a timeout as false. A wait error is an error after a kill |
| Previews.HeicReapIrrelevant | src/previews/generate.rs:30-33 | The killed tool is never reaped, so reaping plays no part |
| Previews.HeicAgreesWithThumbnail | src/previews/generate.rs:28-34 | When the reap would succeed, the preview HEIF step reports exactly what the thumbnail one does |
| Previews.VideoCommand | src/previews/generate.rs:41-48 | `ffmpegthumbnailer` reads the load path (`-i`), writes the save path itself (`-o`) and nothing else, with the literal size text `PREVIEW_TARGET_SIZE` (`-s`) |
| Previews.VideoPreview | src/previews/generate.rs:37-61 | Succeeds exactly when the tool starts and exits, whatever its status. A timeout is an error. A wait error is an error after a kill |
| Previews.GeneratePreview | src/previews/generate.rs:63-105 | Per route: the video tool writes the target directly and any exit is true; the HEIF tool is true only for a successful exit; or the in-process render. It panics only for a missing extension or an uncreatable JPEG target |
| Previews.SameOutsideVideo | src/previews/generate.rs:88-104 | Outside the video route, previews and thumbnails return the same result and write the same image |
| Previews.VideoOutcomesDiffer | src/previews/generate.rs:52-60 | On the video route, a wait error is success for a thumbnail and failure for a preview. A non-zero exit whose frame cannot be read is failure for a thumbnail and success for a preview |

## Left out

- `resize_dimensions_fill` and the resize itself: floating-point arithmetic on pixel sizes. The model keeps only the rotation and the encoder of the written image.
- Pixels and encoding: whether decoding, encoding, creating or saving a file succeeds is an input.
- Process control: starting, waiting for and killing the external tools are inputs (`ToolRun`). The 5- and 15-second deadlines appear only as the timed-out outcome.
- Concurrency: the per-user threads and the parallel iterator are modelled as independent sequential computations, which is what the code relies on. The managers' wait loop is modelled sequentially: the check, insert and remove are one step, and a request whose id is in flight waits. The interleaving between the read-lock release and the write-lock insert is not modelled, so the model does not show the case in which two concurrent requests for one photo both pass the wait and both generate.
- The file system, the database, HTTP and logging. The sidecar documents, EXIF fields, MIME table, directory walk, existing storage paths and call outcomes are inputs. JSON and EXIF byte-level decoding are not modelled; a sidecar is parsed or `Malformed`.
- The directory walk's order and error reporting: a walk is a given sequence of entries or unreadable items.
- Database id assignment: the Rust rows carry id 0 until inserted. The Kotlin `Photo` draws a random 64-bit id from `IdGenerator` (`SecureRandom.nextLong`) when it is built. The model hands out consecutive ids from a counter above every existing id instead. That stands for ids that never collide with existing or new rows. A collision of two random ids is not modelled.
- The Kotlin `StartData` directory scan: it is an input (`scan`) to `StartSync.SyncUsers`.
- Lossy conversions: `to_string_lossy` and `to_str` on non-UTF-8 names. Strings are sequences of characters.
- Unicode digits: `\d` in the newer patterns also matches non-ASCII decimal digits. The model reads only ASCII digits, as the older patterns' `[0-9]` does.
- Nanoseconds: all times are whole seconds. chrono's leap second is folded onto second 59.
- chrono versions: the older EXIF path is modelled on chrono 0.4's parser, which skips white space before every numeric item and at the space of the format. The older regex heuristics hand the parser captures of fixed-width ASCII digits with no white space, which it reads at the fixed positions the model uses.
- The EXIF reader's IFD layout: a file's fields are a given sequence in reader order. Only ASCII and unsigned values are distinguished.
- The legacy catalog `Photo` has no caption field. It shares the newer row type, with the caption always `None`.
- FilenameHeuristics.MillisTimestamp: the 13 digits are read as a mathematical integer. The `i64` parse of the source cannot fail on 13 digits, so nothing is lost.

## Findings

| source | as written | input that shows it | evidently intended | confidence | as-written member | corrected member |
|---|---|---|---|---|---|---|
| src/utils/data_scan.rs:298 | The first nine of the 13 captured millisecond digits are read as seconds, which is a tenth of the intended value | `random-1474560270000` gives 1974-09-03 16:00:27 | Divide the milliseconds by 1000, giving 2016-09-22 16:04:30, as the newer scan does | not executed | LegacyExamples.LegacyMillisExample | FilenameHeuristics.MillisTimestamp |
| src/previews/generate.rs:22 | `stringify!(PREVIEW_TARGET_SIZE)` passes the constant's name as the size argument of both preview tools | any HEIC or video preview request: the tool receives `-s PREVIEW_TARGET_SIZE` | The decimal value `500`, as the thumbnail generator passes | not executed | Previews.SizeArgumentNotNumeric | Thumbnails.SizeArgument |
