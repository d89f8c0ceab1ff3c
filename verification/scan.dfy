/**
 * `DataScan::scan_user_photos` and `parse_image`: turning the entries of a
 * user's directory walk into draft catalog rows. The walk itself is an input:
 * the sequence of items `WalkDir::new(root).max_depth(2)` yields, each either
 * an entry or an error.
 */
module Scan {
  import opened Wrappers
  import opened Ints
  import opened Paths
  import Civil
  import Timestamp
  import Photos

  /**
   * A walked entry: its depth below the user's root, its path, whether the
   * path is a directory, the name of its parent directory (when the parent
   * path has a final component) and its metadata length (when readable).
   */
  datatype Entry = Entry(depth: nat, dir: string, fileName: string, isDir: bool,
                         parentName: Option<string>, metadataLen: Option<u64>)

  datatype WalkItem = Unreadable | Found(entry: Entry)

  /** The user's root directory: missing (and whether creating it succeeds), or walked. */
  datatype UserRoot = Missing(createSucceeds: bool) | Present(items: seq<WalkItem>)

  const MAX_DEPTH: nat := 2
  const JSON_EXTENSION: string := "json"

  function EntryPath(e: Entry): MediaPath {
    MediaPath(e.dir, Some(e.fileName))
  }

  /**
   * Entries that reach `parse_image`: within the walk depth, not directories,
   * not `.json` files. A file within the depth that is skipped is named
   * `<stem>.json` with a non-empty stem.
   */
  predicate Eligible(e: Entry): (ok: bool)
    ensures ok ==> e.depth <= MAX_DEPTH && !e.isDir
    ensures !ok && e.depth <= MAX_DEPTH && !e.isDir ==>
      FileStem(EntryPath(e)).Some? && |FileStem(EntryPath(e)).value| > 0
      && e.fileName == FileStem(EntryPath(e)).value + "." + JSON_EXTENSION
  {
    e.depth <= MAX_DEPTH && !e.isDir && Extension(EntryPath(e)) != Some(JSON_EXTENSION)
  }

  /** Every `<stem>.json` file with a non-empty stem is skipped, at any depth. */
  lemma JsonNamesSkipped(e: Entry, stem: string)
    requires |stem| > 0 && e.fileName == stem + "." + JSON_EXTENSION
    ensures !Eligible(e)
  {
    SplitAtDotOf(stem, JSON_EXTENSION);
  }

  /** `fs::metadata(path).map_or(0, |m| m.len() as i64)`. */
  function FileSize(e: Entry): (size: int)
    ensures IsI64(size)
    ensures e.metadataLen.None? ==> size == 0
    ensures e.metadataLen.Some? && (e.metadataLen.value as int) < TWO_TO_63 ==> size == e.metadataLen.value as int
  {
    match e.metadataLen
    case None => 0
    case Some(n) => AsI64(n)
  }

  /**
   * `parse_image`: a draft row for a file whose timestamp resolves. At depth 2
   * the folder is the parent directory's name, and a parent without a name
   * makes the `?` give no row at all.
   */
  function ParseImage(disk: Timestamp.Disk, userId: int, e: Entry): (r: Option<Photos.Photo>)
    ensures r.Some? <==> Timestamp.Resolve(disk, EntryPath(e)).Some? && (e.depth == 2 ==> e.parentName.Some?)
    ensures r.Some? ==> r.value.id == 0 && r.value.caption.None? && r.value.owner == userId
    ensures r.Some? ==> r.value.name == e.fileName && r.value.fileSize == FileSize(e)
    ensures r.Some? ==> r.value.timeCreated == Timestamp.Resolve(disk, EntryPath(e)).value
    ensures r.Some? ==> Civil.Valid(r.value.timeCreated) && Civil.InTimeRange(r.value.timeCreated)
    ensures r.Some? ==> (r.value.folder.Some? <==> e.depth == 2)
    ensures r.Some? && e.depth == 2 ==> r.value.folder == e.parentName
  {
    match Timestamp.Resolve(disk, EntryPath(e))
    case None => None
    case Some(dt) =>
      var folder :=
        if e.depth == 2 then
          match e.parentName
          case None => None
          case Some(name) => Some(Some(name))
        else Some(None);
      match folder
      case None => None
      case Some(f) => Some(Photos.Photo(0, userId, e.fileName, dt, FileSize(e), f, None))
  }

  /** The row one walk item contributes: none for errors, skipped entries and unresolved files. */
  function ItemRecord(disk: Timestamp.Disk, userId: int, item: WalkItem): (r: Option<Photos.Photo>)
    ensures r.Some? ==> r.value.owner == userId && r.value.id == 0
  {
    match item
    case Unreadable => None
    case Found(e) => if Eligible(e) then ParseImage(disk, userId, e) else None
  }

  /** The rows of a walk, in walk order. */
  function Records(disk: Timestamp.Disk, userId: int, items: seq<WalkItem>): (r: seq<Photos.Photo>)
    ensures |r| <= |items|
    ensures forall k :: 0 <= k < |r| ==> r[k].owner == userId && r[k].id == 0
  {
    if |items| == 0 then []
    else
      var rest := Records(disk, userId, items[1..]);
      var head := ItemRecord(disk, userId, items[0]);
      if head.None? then rest
      else
        OwnedCons(head.value, rest, userId);
        [head.value] + rest
  }

  lemma OwnedCons(p: Photos.Photo, rest: seq<Photos.Photo>, userId: int)
    requires p.owner == userId && p.id == 0
    requires forall k :: 0 <= k < |rest| ==> rest[k].owner == userId && rest[k].id == 0
    ensures forall k :: 0 <= k < |rest| + 1 ==> ([p] + rest)[k].owner == userId && ([p] + rest)[k].id == 0
  {
  }

  /** Walking two runs of items one after the other yields the rows of each in turn. */
  lemma {:induction false} RecordsConcat(disk: Timestamp.Disk, userId: int, a: seq<WalkItem>, b: seq<WalkItem>)
    ensures Records(disk, userId, a + b) == Records(disk, userId, a) + Records(disk, userId, b)
  {
    if |a| > 0 {
      assert (a + b)[1..] == a[1..] + b;
      assert (a + b)[0] == a[0];
      RecordsConcat(disk, userId, a[1..], b);
    } else {
      assert a + b == b;
    }
  }

  /** A row is produced exactly for an eligible entry of the walk whose `parse_image` succeeds. */
  lemma {:induction false} RecordsMembership(disk: Timestamp.Disk, userId: int, items: seq<WalkItem>, p: Photos.Photo)
    ensures p in Records(disk, userId, items) <==>
      exists k :: 0 <= k < |items| && ItemRecord(disk, userId, items[k]) == Some(p)
  {
    if |items| > 0 {
      RecordsMembership(disk, userId, items[1..], p);
      if p in Records(disk, userId, items) && ItemRecord(disk, userId, items[0]) != Some(p) {
        var k :| 0 <= k < |items[1..]| && ItemRecord(disk, userId, items[1..][k]) == Some(p);
        assert ItemRecord(disk, userId, items[k + 1]) == Some(p);
      }
      if exists k :: 0 <= k < |items| && ItemRecord(disk, userId, items[k]) == Some(p) {
        var k :| 0 <= k < |items| && ItemRecord(disk, userId, items[k]) == Some(p);
        if k > 0 {
          assert items[1..][k - 1] == items[k];
        }
      }
    }
  }

  /** Errors, directories, `.json` files and entries below the walk depth never produce a row. */
  lemma SkippedItems(disk: Timestamp.Disk, userId: int, item: WalkItem)
    requires item.Unreadable? || !Eligible(item.entry)
    ensures Records(disk, userId, [item]) == []
  {
    assert [item][1..] == [];
  }

  /**
   * `scan_user_photos`: a missing root is created and scanned as empty; a
   * failed creation panics (`unwrap`); otherwise the walk's rows.
   */
  function ScanUser(disk: Timestamp.Disk, user: Photos.User, root: UserRoot): (r: Outcome<seq<Photos.Photo>>)
    ensures r.Panic? <==> root == Missing(false)
    ensures root.Missing? && r.Done? ==> r.value == []
    ensures root.Present? ==> r == Done(Records(disk, user.id, root.items))
  {
    match root
    case Missing(created) => if created then Done([]) else Panic
    case Present(items) => Done(Records(disk, user.id, items))
  }

  /**
   * `DataScan::scan`: every user scanned, results in user order; the parallel
   * `collect` re-raises a worker's panic, so one panicking user aborts the scan.
   */
  function ScanAll(disk: Timestamp.Disk, jobs: seq<(Photos.User, UserRoot)>): (r: Outcome<seq<(Photos.User, seq<Photos.Photo>)>>)
    ensures r.Panic? <==> exists k :: 0 <= k < |jobs| && ScanUser(disk, jobs[k].0, jobs[k].1).Panic?
    ensures r.Done? ==> |r.value| == |jobs|
    ensures r.Done? ==> forall k :: 0 <= k < |jobs| ==>
      r.value[k] == (jobs[k].0, ScanUser(disk, jobs[k].0, jobs[k].1).value)
  {
    if |jobs| == 0 then Done([])
    else
      match ScanUser(disk, jobs[0].0, jobs[0].1)
      case Panic => Panic
      case Done(photos) =>
        match ScanAll(disk, jobs[1..])
        case Panic =>
          ghost var k :| 0 <= k < |jobs[1..]| && ScanUser(disk, jobs[1..][k].0, jobs[1..][k].1).Panic?;
          assert jobs[1..][k] == jobs[k + 1];
          Panic
        case Done(rest) =>
          var r := [(jobs[0].0, photos)] + rest;
          assert forall k :: 1 <= k < |jobs| ==> jobs[k] == jobs[1..][k - 1];
          Done(r)
  }
}
