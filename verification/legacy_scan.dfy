/**
 * The older `DataScan` (scan side): timestamps from a sidecar, EXIF or the
 * file name, and the per-user scan threads whose panics drop that user's
 * results. Reconciliation is the same as in the newer scan (`Reconcile`).
 */
module LegacyScan {
  import opened Wrappers
  import opened Ints
  import opened Text
  import opened Paths
  import Civil
  import Exif
  import Photos
  import Timestamp
  import LegacyHeuristics
  import Scan

  const EDIT_SUFFIX: string := "-editat"

  /**
   * The sidecar's file name: the stem without trailing `-editat` copies, then
   * without trailing `(1)` copies, then the extension and `.json`. Both
   * `unwrap`s panic: on a path without a stem and on one without an extension.
   */
  function LegacySidecarName(p: MediaPath): (r: Outcome<string>)
    ensures r.Panic? <==> FileStem(p).None? || Extension(p).None?
    ensures r.Done? ==> EndsWith(r.value, "." + Extension(p).value + ".json")
  {
    match (FileStem(p), Extension(p))
    case (Some(stem), Some(ext)) =>
      var base := TrimEndMatches(TrimEndMatches(stem, EDIT_SUFFIX), Timestamp.COPY_SUFFIX);
      var name := base + "." + ext + ".json";
      assert name == base + ("." + ext + ".json");
      Done(name)
    case _ => Panic
  }

  /**
   * An edited file `x-editat` and the copies `x(1)`, `x(1)-editat`, ... all
   * share the sidecar of `x`, named after `x` itself.
   */
  lemma EditedCopiesShareSidecar(dir: string, stem: string, ext: string, copies: nat, edits: nat)
    requires |stem| > 0 && '.' !in ext && stem + "." + ext != ".."
    requires !EndsWith(stem, EDIT_SUFFIX) && !EndsWith(stem, Timestamp.COPY_SUFFIX)
    ensures LegacySidecarName(MediaPath(dir, Some(stem + Repeat(Timestamp.COPY_SUFFIX, copies)
                                                   + Repeat(EDIT_SUFFIX, edits) + "." + ext)))
         == Done(stem + "." + ext + ".json")
  {
    var name := stem + Repeat(Timestamp.COPY_SUFFIX, copies) + Repeat(EDIT_SUFFIX, edits);
    LongerName(stem, name, ext);
    SplitAtDotOf(name, ext);
    TrimBoth(stem, copies, edits);
  }

  lemma LongerName(stem: string, name: string, ext: string)
    requires |stem| > 0 && stem + "." + ext != ".." && |name| >= |stem| && name[..|stem|] == stem
    ensures |name| > 0 && name + "." + ext != ".."
  {
    if |name| == |stem| {
      assert name == stem;
    } else {
      assert |name + "." + ext| > 2;
    }
  }

  /** Both trims of the older sidecar naming undo the suffixes of copies and edits. */
  lemma TrimBoth(stem: string, copies: nat, edits: nat)
    requires !EndsWith(stem, EDIT_SUFFIX) && !EndsWith(stem, Timestamp.COPY_SUFFIX)
    ensures TrimEndMatches(TrimEndMatches(stem + Repeat(Timestamp.COPY_SUFFIX, copies) + Repeat(EDIT_SUFFIX, edits),
                                          EDIT_SUFFIX), Timestamp.COPY_SUFFIX) == stem
  {
    var copied := stem + Repeat(Timestamp.COPY_SUFFIX, copies);
    TrimEndMatchesCopies(copied, EDIT_SUFFIX, edits);
    CopiesNotEdited(stem, copies);
    assert TrimEndMatches(copied, EDIT_SUFFIX) == copied;
    TrimEndMatchesCopies(stem, Timestamp.COPY_SUFFIX, copies);
    assert TrimEndMatches(stem, Timestamp.COPY_SUFFIX) == stem;
  }

  lemma CopiesNotEdited(stem: string, copies: nat)
    requires !EndsWith(stem, EDIT_SUFFIX)
    ensures !EndsWith(stem + Repeat(Timestamp.COPY_SUFFIX, copies), EDIT_SUFFIX)
  {
    var copied := stem + Repeat(Timestamp.COPY_SUFFIX, copies);
    if copies > 0 {
      RepeatSnoc(Timestamp.COPY_SUFFIX, copies - 1);
      assert copied == (stem + Repeat(Timestamp.COPY_SUFFIX, copies - 1)) + Timestamp.COPY_SUFFIX;
      assert copied[|copied| - 1] == ')';
    } else {
      assert copied == stem;
    }
  }

  /**
   * `get_json_timestamp` of the older scan: `Done(None)` when the sidecar does
   * not open; the minimum of both times, else the creation time, else the
   * taken time. A malformed document, or one with neither time, panics.
   */
  function LegacyJson(disk: Timestamp.Disk, p: MediaPath): (r: Outcome<Option<u64>>)
    ensures LegacySidecarName(p).Panic? ==> r.Panic?
    ensures LegacySidecarName(p).Done? && LegacySidecarName(p).value !in disk.sidecars ==> r == Done(None)
    ensures LegacySidecarName(p).Done? && LegacySidecarName(p).value in disk.sidecars ==>
      match disk.sidecars[LegacySidecarName(p).value]
      case Malformed => r.Panic?
      case Doc(created, taken) =>
        (r.Panic? <==> created.None? && taken.None?) &&
        (r.Done? ==> r.value.Some? && (r.value == created || r.value == taken)) &&
        (r.Done? && created.Some? ==> r.value.value <= created.value) &&
        (r.Done? && taken.Some? ==> r.value.value <= taken.value)
  {
    match LegacySidecarName(p)
    case Panic => Panic
    case Done(name) =>
      if name !in disk.sidecars then Done(None)
      else
        match disk.sidecars[name]
        case Malformed => Panic
        case Doc(created, taken) =>
          if created.Some? && taken.Some? then
            Done(Some(if created.value <= taken.value then created.value else taken.value))
          else if created.Some? then Done(created)
          else if taken.Some? then Done(taken)
          else Panic
  }

  /** `get_exif_timestamp` of the older scan: every readable file, chrono dates, no MIME check. */
  function LegacyExif(disk: Timestamp.Disk, p: MediaPath): (r: Option<Civil.DateTime>)
    ensures r.Some? ==> p in disk.exif && Civil.Valid(r.value)
    ensures p in disk.exif ==> r == Exif.FirstDateTime(Exif.Chrono, disk.exif[p])
  {
    if p in disk.exif then Exif.FirstDateTime(Exif.Chrono, disk.exif[p]) else None
  }

  /**
   * The timestamp chain of the older `scan_user_photos`: a sidecar value is
   * turned into a date with `from_timestamp`, which panics out of chrono's
   * range; with no sidecar, EXIF and then the file-name heuristics.
   */
  function LegacyTimestamp(disk: Timestamp.Disk, p: MediaPath): (r: Outcome<Option<Civil.DateTime>>)
    ensures r.Done? && r.value.Some? ==> Civil.Valid(r.value.value)
  {
    match LegacyJson(disk, p)
    case Panic => Panic
    case Done(Some(t)) =>
      (match Civil.ChronoFromUnix(AsI64(t))
       case None => Panic
       case Some(dt) => Done(Some(dt)))
    case Done(None) =>
      match LegacyExif(disk, p)
      case Some(dt) => Done(Some(dt))
      case None =>
        match FileStem(p)
        case None => Panic
        case Some(name) => Done(LegacyHeuristics.LegacyRegexTimestamp(name))
  }

  /**
   * The order of the older chain: any sidecar value wins (or panics); without
   * a sidecar file, EXIF, then the file name.
   */
  lemma LegacyStrategyOrder(disk: Timestamp.Disk, p: MediaPath)
    ensures LegacyJson(disk, p).Panic? ==> LegacyTimestamp(disk, p).Panic?
    ensures LegacyJson(disk, p).Done? && LegacyJson(disk, p).value.Some? ==>
      var secs := AsI64(LegacyJson(disk, p).value.value);
      (LegacyTimestamp(disk, p).Panic? <==> Civil.ChronoFromUnix(secs).None?) &&
      (LegacyTimestamp(disk, p).Done? ==> LegacyTimestamp(disk, p).value == Civil.ChronoFromUnix(secs))
    ensures LegacyJson(disk, p) == Done(None) && LegacyExif(disk, p).Some? ==>
      LegacyTimestamp(disk, p) == Done(LegacyExif(disk, p))
    ensures LegacyJson(disk, p) == Done(None) && LegacyExif(disk, p).None? ==>
      LegacyTimestamp(disk, p) == Done(LegacyHeuristics.LegacyRegexTimestamp(FileStem(p).value))
  {
    if LegacyJson(disk, p).Done? {
      assert LegacySidecarName(p).Done?;
    }
  }

  /** A file with a stem but no extension, such as `README`, panics the older chain. */
  lemma MissingExtensionPanics(disk: Timestamp.Disk, dir: string, name: string)
    requires '.' !in name
    ensures LegacyTimestamp(disk, MediaPath(dir, Some(name))).Panic?
  {
    assert RsplitOnce(name, '.').None?;
  }

  /**
   * The older `scan_user_photos`: a missing root is created (or the `unwrap`
   * panics); otherwise the eligible entries in walk order, a file without a
   * timestamp skipped, and any panic of the chain or of the parent-name
   * `unwrap`s ending the user's scan.
   */
  function LegacyRecords(disk: Timestamp.Disk, userId: int, items: seq<Scan.WalkItem>): (r: Outcome<seq<Photos.Photo>>)
    ensures r.Done? ==> |r.value| <= |items|
    ensures r.Done? ==> forall k :: 0 <= k < |r.value| ==> r.value[k].owner == userId && r.value[k].id == 0
  {
    if |items| == 0 then Done([])
    else
      match LegacyItemRecord(disk, userId, items[0])
      case Panic => Panic
      case Done(head) =>
        match LegacyRecords(disk, userId, items[1..])
        case Panic => Panic
        case Done(rest) =>
          match head
          case None => Done(rest)
          case Some(photo) =>
            Scan.OwnedCons(photo, rest, userId);
            Done([photo] + rest)
  }

  /** The row one walk item contributes to the older scan. */
  function LegacyItemRecord(disk: Timestamp.Disk, userId: int, item: Scan.WalkItem): (r: Outcome<Option<Photos.Photo>>)
    ensures r.Done? && r.value.Some? ==> r.value.value.owner == userId && r.value.value.id == 0
    ensures item.Unreadable? || !Scan.Eligible(item.entry) ==> r == Done(None)
    ensures item.Found? && Scan.Eligible(item.entry) && LegacyTimestamp(disk, Scan.EntryPath(item.entry)).Panic? ==> r.Panic?
    ensures r.Done? && r.value.Some? ==>
      item.Found? && Scan.Eligible(item.entry) &&
      LegacyTimestamp(disk, Scan.EntryPath(item.entry)) == Done(Some(r.value.value.timeCreated)) &&
      r.value.value.name == item.entry.fileName && r.value.value.fileSize == Scan.FileSize(item.entry) &&
      (r.value.value.folder.Some? <==> item.entry.depth == 2) &&
      (item.entry.depth == 2 ==> r.value.value.folder == item.entry.parentName)
  {
    match item
    case Unreadable => Done(None)
    case Found(e) =>
      if !Scan.Eligible(e) then Done(None)
      else
        match LegacyTimestamp(disk, Scan.EntryPath(e))
        case Panic => Panic
        case Done(None) => Done(None)
        case Done(Some(dt)) =>
          if e.depth == 2 then
            (match e.parentName
             case None => Panic
             case Some(folder) => Done(Some(Photos.Photo(0, userId, e.fileName, dt, Scan.FileSize(e), Some(folder), None))))
          else Done(Some(Photos.Photo(0, userId, e.fileName, dt, Scan.FileSize(e), None, None)))
  }

  function LegacyScanUser(disk: Timestamp.Disk, user: Photos.User, root: Scan.UserRoot): (r: Outcome<seq<Photos.Photo>>)
    ensures root == Scan.Missing(true) ==> r == Done([])
    ensures root == Scan.Missing(false) ==> r.Panic?
    ensures root.Present? ==> r == LegacyRecords(disk, user.id, root.items)
  {
    match root
    case Missing(created) => if created then Done([]) else Panic
    case Present(items) => LegacyRecords(disk, user.id, items)
  }

  /** One panicking item ends the user's scan, whatever the other items hold. */
  lemma {:induction false} PanicEndsUserScan(disk: Timestamp.Disk, userId: int, items: seq<Scan.WalkItem>, k: nat)
    requires k < |items| && LegacyItemRecord(disk, userId, items[k]).Panic?
    ensures LegacyRecords(disk, userId, items).Panic?
  {
    if k > 0 {
      assert items[1..][k - 1] == items[k];
      PanicEndsUserScan(disk, userId, items[1..], k - 1);
    }
    RecordsStep(disk, userId, items);
  }

  /** The older scan panics when the first item does, or when the rest does. */
  lemma RecordsStep(disk: Timestamp.Disk, userId: int, items: seq<Scan.WalkItem>)
    requires |items| > 0
    ensures LegacyRecords(disk, userId, items).Panic? <==>
      LegacyItemRecord(disk, userId, items[0]).Panic? || LegacyRecords(disk, userId, items[1..]).Panic?
  {
  }

  /**
   * The older `DataScan::scan`: one thread per user; a thread that panicked
   * is reported and its user left out, the others kept in user order.
   */
  function LegacyScanAll(disk: Timestamp.Disk, jobs: seq<(Photos.User, Scan.UserRoot)>): (r: seq<(Photos.User, seq<Photos.Photo>)>)
    ensures |r| <= |jobs|
    ensures forall k :: 0 <= k < |jobs| && LegacyScanUser(disk, jobs[k].0, jobs[k].1).Done? ==>
      (jobs[k].0, LegacyScanUser(disk, jobs[k].0, jobs[k].1).value) in r
    ensures forall x :: x in r ==>
      (exists k :: 0 <= k < |jobs| && jobs[k].0 == x.0 && LegacyScanUser(disk, jobs[k].0, jobs[k].1) == Done(x.1))
  {
    if |jobs| == 0 then []
    else
      var rest := LegacyScanAll(disk, jobs[1..]);
      assert forall k :: 1 <= k < |jobs| ==> jobs[k] == jobs[1..][k - 1];
      match LegacyScanUser(disk, jobs[0].0, jobs[0].1)
      case Panic => rest
      case Done(photos) => [(jobs[0].0, photos)] + rest
  }

  /** Each user's result does not depend on the other users: panics are contained per thread. */
  lemma {:induction false} LegacyScanAllConcat(disk: Timestamp.Disk, a: seq<(Photos.User, Scan.UserRoot)>, b: seq<(Photos.User, Scan.UserRoot)>)
    ensures LegacyScanAll(disk, a + b) == LegacyScanAll(disk, a) + LegacyScanAll(disk, b)
  {
    if |a| > 0 {
      assert (a + b)[1..] == a[1..] + b;
      assert (a + b)[0] == a[0];
      LegacyScanAllConcat(disk, a[1..], b);
    } else {
      assert a + b == b;
    }
  }
}
