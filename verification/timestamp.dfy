/**
 * `get_timestamp_for_path`: the capture time of a media file, tried in a
 * fixed order. A Google-Takeout style sidecar JSON comes first, the EXIF date
 * tags of an image second, and the file-name heuristics last. The file system,
 * the JSON parser and the EXIF reader are inputs, gathered in `Disk`.
 */
module Timestamp {
  import opened Wrappers
  import opened Ints
  import opened Text
  import opened Paths
  import Civil
  import Mime
  import Exif
  import FilenameHeuristics

  /** What reading a sidecar file gives: a parse failure, or its two optional times. */
  datatype SidecarDoc = Malformed | Doc(creationTime: Option<u64>, photoTakenTime: Option<u64>)

  /**
   * The world the resolver reads. `sidecars` maps each file name that opens to
   * what it parses to; `exif` maps each media path whose container the EXIF
   * reader accepts to its fields, in reader order.
   */
  datatype Disk = Disk(sidecars: map<string, SidecarDoc>, exif: map<MediaPath, seq<Exif.Field>>, mime: Mime.Table)

  const COPY_SUFFIX: string := "(1)"

  /**
   * The sidecar's file name: the stem without trailing `(1)` copies, trimmed,
   * then the extension and `.json`. It is a bare name, looked up relative to
   * the process's working directory rather than next to the media file.
   */
  function SidecarName(p: MediaPath): (r: Option<string>)
    ensures r.Some? <==> FileStem(p).Some? && Extension(p).Some?
    ensures r.Some? ==> EndsWith(r.value, "." + Extension(p).value + ".json")
  {
    match (FileStem(p), Extension(p))
    case (Some(stem), Some(ext)) =>
      var base := Trim(TrimEndMatches(stem, COPY_SUFFIX));
      JsonNameEnds(base, ext);
      Some(base + "." + ext + ".json")
    case _ => None
  }

  lemma JsonNameEnds(base: string, ext: string)
    ensures EndsWith(base + "." + ext + ".json", "." + ext + ".json")
  {
    var name := base + "." + ext + ".json";
    assert name == base + ("." + ext + ".json");
  }

  /** Copies named `x(1)`, `x(1)(1)`, ... share the sidecar of `x`. */
  lemma SidecarIgnoresCopies(dir: string, stem: string, ext: string, n: nat)
    requires |stem| > 0 && '.' !in ext && stem + "." + ext != ".."
    ensures SidecarName(MediaPath(dir, Some(stem + Repeat(COPY_SUFFIX, n) + "." + ext)))
         == SidecarName(MediaPath(dir, Some(stem + "." + ext)))
  {
    SplitAtDotOf(stem, ext);
    var copy := stem + Repeat(COPY_SUFFIX, n);
    assert |copy| >= |stem|;
    assert copy + "." + ext != ".." by {
      if n > 0 {
        assert copy[|stem|] == '(';
        assert (copy + "." + ext)[|stem|] == '(';
      } else {
        assert copy == stem;
      }
    }
    SplitAtDotOf(copy, ext);
    TrimEndMatchesCopies(stem, COPY_SUFFIX, n);
  }

  /** For a plain name (no copy suffix, no surrounding blanks) the sidecar is the file name plus `.json`. */
  lemma SidecarOfPlainName(dir: string, stem: string, ext: string)
    requires |stem| > 0 && '.' !in ext && stem + "." + ext != ".."
    requires !EndsWith(stem, COPY_SUFFIX) && !IsWhitespace(stem[0]) && !IsWhitespace(stem[|stem| - 1])
    ensures SidecarName(MediaPath(dir, Some(stem + "." + ext))) == Some(stem + "." + ext + ".json")
  {
    SplitAtDotOf(stem, ext);
    TrimUntouched(stem);
  }

  /**
   * `get_json_timestamp`: `photoTakenTime`, else `creationTime`. A sidecar that
   * cannot be named, opened or parsed gives nothing.
   */
  function JsonTimestamp(disk: Disk, p: MediaPath): (r: Option<u64>)
    ensures r.Some? ==> SidecarName(p).Some? && SidecarName(p).value in disk.sidecars
    ensures r.Some? ==> disk.sidecars[SidecarName(p).value].Doc?
  {
    match SidecarName(p)
    case None => None
    case Some(name) =>
      if name !in disk.sidecars then None
      else
        match disk.sidecars[name]
        case Malformed => None
        case Doc(created, taken) => taken.Or(created)
  }

  /**
   * The sidecar lookup depends on the file name alone: two media files of the
   * same name in different directories read the same sidecar.
   */
  lemma SidecarIgnoresDirectory(disk: Disk, dir1: string, dir2: string, name: Option<string>)
    ensures SidecarName(MediaPath(dir1, name)) == SidecarName(MediaPath(dir2, name))
    ensures JsonTimestamp(disk, MediaPath(dir1, name)) == JsonTimestamp(disk, MediaPath(dir2, name))
  {
    assert FileStem(MediaPath(dir1, name)) == FileStem(MediaPath(dir2, name));
    assert Extension(MediaPath(dir1, name)) == Extension(MediaPath(dir2, name));
  }

  /** The sidecar preference, stated field by field. */
  lemma JsonPreference(disk: Disk, p: MediaPath, created: Option<u64>, taken: Option<u64>)
    requires SidecarName(p).Some? && SidecarName(p).value in disk.sidecars
    requires disk.sidecars[SidecarName(p).value] == Doc(created, taken)
    ensures taken.Some? ==> JsonTimestamp(disk, p) == taken
    ensures taken.None? ==> JsonTimestamp(disk, p) == created
  {
  }

  /** The path has an extension that the MIME table maps to an `image` type. */
  predicate IsImage(disk: Disk, p: MediaPath) {
    Extension(p).Some? && Mime.TopLevelType(disk.mime, Extension(p).value) == "image"
  }

  /**
   * `get_exif_timestamp`: only for extensions whose MIME top-level type is
   * `image`, the first primary-IFD date field of the file in reader order.
   */
  function ExifTimestamp(disk: Disk, p: MediaPath): (r: Option<Civil.DateTime>)
    ensures r.Some? ==> Extension(p).Some? && Mime.TopLevelType(disk.mime, Extension(p).value) == "image"
    ensures r.Some? ==> p in disk.exif && Civil.Valid(r.value) && Civil.InTimeRange(r.value)
    ensures r.Some? ==> exists k :: 0 <= k < |disk.exif[p]| && Exif.FieldDateTime(Exif.TimeCrate, disk.exif[p][k]) == r
    ensures IsImage(disk, p) && p in disk.exif ==> r == Exif.FirstDateTime(Exif.TimeCrate, disk.exif[p])
    ensures !IsImage(disk, p) || p !in disk.exif ==> r.None?
  {
    match Extension(p)
    case None => None
    case Some(ext) =>
      if Mime.TopLevelType(disk.mime, ext) != "image" || p !in disk.exif then None
      else
        Exif.FirstDateTime(Exif.TimeCrate, disk.exif[p])
  }

  /** `get_timestamp_for_path`: sidecar, else EXIF, then the file-name heuristics. */
  function Resolve(disk: Disk, p: MediaPath): (r: Option<Civil.DateTime>)
    ensures r.Some? ==> Civil.Valid(r.value) && Civil.InTimeRange(r.value)
  {
    var first :=
      match JsonTimestamp(disk, p)
      case None => ExifTimestamp(disk, p)
      case Some(t) => Civil.TimeFromUnix(AsI64(t));
    first.Or(FilenameHeuristics.RegexTimestamp(p))
  }

  /**
   * The order of the strategies: a sidecar value that converts wins; one that
   * does not convert skips EXIF and goes to the file name; with no sidecar
   * value EXIF comes before the file name.
   */
  lemma StrategyOrder(disk: Disk, p: MediaPath)
    ensures JsonTimestamp(disk, p).Some? && Civil.TimeFromUnix(AsI64(JsonTimestamp(disk, p).value)).Some? ==>
      Resolve(disk, p) == Civil.TimeFromUnix(AsI64(JsonTimestamp(disk, p).value))
    ensures JsonTimestamp(disk, p).Some? && Civil.TimeFromUnix(AsI64(JsonTimestamp(disk, p).value)).None? ==>
      Resolve(disk, p) == FilenameHeuristics.RegexTimestamp(p)
    ensures JsonTimestamp(disk, p).None? && ExifTimestamp(disk, p).Some? ==>
      Resolve(disk, p) == ExifTimestamp(disk, p)
    ensures JsonTimestamp(disk, p).None? && ExifTimestamp(disk, p).None? ==>
      Resolve(disk, p) == FilenameHeuristics.RegexTimestamp(p)
  {
  }

  /** Once a sidecar gives a value, the EXIF data of the file cannot change the result. */
  lemma SidecarShadowsExif(d1: Disk, d2: Disk, p: MediaPath)
    requires d1.sidecars == d2.sidecars
    requires JsonTimestamp(d1, p).Some?
    ensures Resolve(d1, p) == Resolve(d2, p)
  {
  }

  /** Non-image files never have their EXIF data read. */
  lemma NonImagesSkipExif(d1: Disk, d2: Disk, p: MediaPath)
    requires d1.sidecars == d2.sidecars && d1.mime == d2.mime
    requires Extension(p).None? || Mime.TopLevelType(d1.mime, Extension(p).value) != "image"
    ensures Resolve(d1, p) == Resolve(d2, p)
  {
  }

  /**
   * A sidecar time at or beyond 2^63 seconds wraps to a negative i64 in the
   * `as` cast; `u64::MAX` lands one second before the epoch.
   */
  lemma SidecarWrapsAround(disk: Disk, p: MediaPath)
    requires JsonTimestamp(disk, p) == Some(0xFFFF_FFFF_FFFF_FFFF as u64)
    ensures Resolve(disk, p) == Some(Civil.DateTime(1969, 12, 31, 23, 59, 59))
  {
    assert AsI64(0xFFFF_FFFF_FFFF_FFFF as u64) == -1;
    LastSecondBeforeEpoch();
  }

  lemma LastSecondBeforeEpoch()
    ensures Civil.TimeFromUnix(-1) == Some(Civil.DateTime(1969, 12, 31, 23, 59, 59))
  {
    var before := Civil.DateTime(1969, 12, 31, 23, 59, 59);
    assert Civil.ToUnix(before) == -1;
    var r := Civil.TimeFromUnix(-1);
    Civil.ToUnixInjective(r.value, before);
  }

  /** No timestamp at all only when every strategy comes up empty. */
  lemma ResolveNone(disk: Disk, p: MediaPath)
    ensures Resolve(disk, p).None? <==>
      FilenameHeuristics.RegexTimestamp(p).None? &&
      (match JsonTimestamp(disk, p)
       case None => ExifTimestamp(disk, p).None?
       case Some(t) => Civil.TimeFromUnix(AsI64(t)).None?)
  {
  }
}
