/**
 * `manageStartData` of the Kotlin servers (`familyphotos` and `homeserver`,
 * identical in this respect): seed the users when there are none, then for
 * each user insert the scanned photos whose full name is new to that user and
 * delete that user's photos whose file is gone. The scan of a user's
 * directory and the file store are inputs.
 */
module StartSync {
  import opened Wrappers
  import opened Seqs
  import opened Photos

  /** The repositories: users, photo rows, and the next id the database hands out. */
  datatype Db = Db(users: seq<User>, photos: seq<KPhoto>, nextId: int)

  /** Every row id was handed out before `nextId`. */
  predicate IdsBelow(db: Db) {
    forall k :: 0 <= k < |db.photos| ==> db.photos[k].id < db.nextId
  }

  /** `saveAll` of new entities: each gets the next id, in order. */
  function Numbered(rows: seq<KPhoto>, start: int): (r: seq<KPhoto>)
    ensures |r| == |rows|
    ensures forall k :: 0 <= k < |r| ==> r[k] == rows[k].(id := start + k)
  {
    seq(|rows|, k requires 0 <= k < |rows| => rows[k].(id := start + k))
  }

  function SaveAll(db: Db, rows: seq<KPhoto>): (r: Db)
    ensures r.users == db.users && r.nextId == db.nextId + |rows|
    ensures r.photos == db.photos + Numbered(rows, db.nextId)
  {
    db.(photos := db.photos + Numbered(rows, db.nextId), nextId := db.nextId + |rows|)
  }

  /** `deleteAll` of entities: the rows with their ids go. */
  function DeleteAll(db: Db, doomed: seq<KPhoto>): (r: Db)
    ensures r.users == db.users && r.nextId == db.nextId
    ensures forall q :: q in r.photos <==> q in db.photos && forall d :: d in doomed ==> d.id != q.id
  {
    db.(photos := Filter(db.photos, (q: KPhoto) => forall d :: d in doomed ==> d.id != q.id))
  }

  /** `photoRepository.findByUser(user)`: the rows the user owns. */
  function OwnedBy(db: Db, user: User): (r: seq<KPhoto>)
    ensures forall q :: q in r <==> q in db.photos && q.ownerUserId == user.id
  {
    Filter(db.photos, (q: KPhoto) => q.ownerUserId == user.id)
  }

  /** `fileStorageService.existsFile(photo.getStorePath(user))`. */
  predicate FileExists(files: set<string>, user: User, p: KPhoto) {
    StorePath(p, user).Ok? && StorePath(p, user).value in files
  }

  /** Rows with the same id are the same row: ids are primary keys. */
  predicate IdsIdentify(photos: seq<KPhoto>) {
    forall p, q :: p in photos && q in photos && p.id == q.id ==> p == q
  }

  /** The invariant of the photo repository the passes keep. */
  predicate WellKeyed(db: Db) {
    IdsBelow(db) && IdsIdentify(db.photos)
  }

  /** What a user's pass did: the repositories after it, the rows it saved and the rows it deleted. */
  datatype Pass = Pass(db: Db, saved: seq<KPhoto>, deleted: seq<KPhoto>)

  /**
   * One user's pass. The existing rows are read once, before saving, and both
   * the name comparison and the deletion use that snapshot. Nothing is saved
   * or deleted when the list is empty.
   */
  function SyncUser(db: Db, user: User, found: seq<KPhoto>, files: set<string>): (r: Pass)
    ensures forall p :: p in r.saved <==>
      p in found && forall q :: q in db.photos && q.ownerUserId == user.id ==> KFullName(q) != KFullName(p)
    ensures forall q :: q in r.deleted <==> q in db.photos && q.ownerUserId == user.id && !FileExists(files, user, q)
    ensures r.db.users == db.users && r.db.nextId == db.nextId + |r.saved|
    ensures forall q :: q in r.db.photos <==>
      (q in db.photos || q in Numbered(r.saved, db.nextId)) && forall d :: d in r.deleted ==> d.id != q.id
  {
    var existing := OwnedBy(db, user);
    var names := set q | q in existing :: KFullName(q);
    var saved := Filter(found, (p: KPhoto) => KFullName(p) !in names);
    var afterSave := if |saved| > 0 then SaveAll(db, saved) else db;
    var gone := Filter(existing, (q: KPhoto) => !FileExists(files, user, q));
    var afterDelete := if |gone| > 0 then DeleteAll(afterSave, gone) else afterSave;
    assert afterSave.photos == db.photos + Numbered(saved, db.nextId);
    Pass(afterDelete, saved, gone)
  }

  /** The existing rows all belong to the user, so `getStorePath` never throws during the pass. */
  lemma StorePathsDefined(db: Db, user: User, q: KPhoto)
    requires q in OwnedBy(db, user)
    ensures StorePath(q, user).Ok?
  {
  }

  /**
   * Rows of other users, and rows of the user whose file exists, stay: the
   * deletion is by id, and only the user's missing rows carry those ids.
   */
  lemma KeptUnlessMissing(db: Db, user: User, found: seq<KPhoto>, files: set<string>, q: KPhoto)
    requires WellKeyed(db) && q in db.photos
    requires q.ownerUserId != user.id || FileExists(files, user, q)
    ensures q in SyncUser(db, user, found, files).db.photos
  {
    var r := SyncUser(db, user, found, files);
    forall d | d in r.deleted ensures d.id != q.id {
      assert d in db.photos;
      assert d != q;
    }
  }

  /**
   * Deletions come from the snapshot taken before saving, so the rows saved in
   * a pass are all there after it.
   */
  lemma SavedRowsSurvive(db: Db, user: User, found: seq<KPhoto>, files: set<string>)
    requires IdsBelow(db)
    ensures var r := SyncUser(db, user, found, files);
      forall p :: p in Numbered(r.saved, db.nextId) ==> p in r.db.photos
  {
    var r := SyncUser(db, user, found, files);
    var newRows := Numbered(r.saved, db.nextId);
    forall p | p in newRows ensures p in r.db.photos {
      var i :| 0 <= i < |newRows| && newRows[i] == p;
      assert p.id >= db.nextId;
      forall d | d in r.deleted ensures d.id != p.id {
        OldIdBelow(db, d);
      }
    }
  }

  lemma OldIdBelow(db: Db, q: KPhoto)
    requires IdsBelow(db) && q in db.photos
    ensures q.id < db.nextId
  {
    var j :| 0 <= j < |db.photos| && db.photos[j] == q;
  }

  lemma NewIdAbove(rows: seq<KPhoto>, start: int, q: KPhoto)
    requires q in Numbered(rows, start)
    ensures start <= q.id < start + |rows|
    ensures forall p :: p in Numbered(rows, start) && p.id == q.id ==> p == q
  {
    var newRows := Numbered(rows, start);
    var i :| 0 <= i < |newRows| && newRows[i] == q;
    forall p | p in newRows && p.id == q.id ensures p == q {
      var i' :| 0 <= i' < |newRows| && newRows[i'] == p;
    }
  }

  /** A pass keeps the ids below `nextId` and distinct. */
  lemma SyncUserWellKeyed(db: Db, user: User, found: seq<KPhoto>, files: set<string>)
    requires WellKeyed(db)
    ensures WellKeyed(SyncUser(db, user, found, files).db)
  {
    var r := SyncUser(db, user, found, files);
    var newRows := Numbered(r.saved, db.nextId);
    forall k | 0 <= k < |r.db.photos| ensures r.db.photos[k].id < r.db.nextId {
      var q := r.db.photos[k];
      assert q in r.db.photos;
      if q in db.photos {
        OldIdBelow(db, q);
      } else {
        NewIdAbove(r.saved, db.nextId, q);
      }
    }
    forall p, q | p in r.db.photos && q in r.db.photos && p.id == q.id ensures p == q {
      if p !in db.photos {
        NewIdAbove(r.saved, db.nextId, p);
        if q in db.photos {
          OldIdBelow(db, q);
        }
      } else if q !in db.photos {
        NewIdAbove(r.saved, db.nextId, q);
        OldIdBelow(db, p);
      }
    }
  }

  /**
   * Unlike the Rust scans, the name comparison is per user: a found photo is
   * saved when only another user's row shares its full name.
   */
  lemma NamesComparedPerUser(db: Db, user: User, found: seq<KPhoto>, files: set<string>, p: KPhoto)
    requires p in found
    requires forall q :: q in db.photos && KFullName(q) == KFullName(p) ==> q.ownerUserId != user.id
    ensures p in SyncUser(db, user, found, files).saved
  {
  }

  /** The passes of `userRepository.findAll().forEach`, in order, each on the previous pass's result. */
  function SyncUsers(db: Db, users: seq<User>, scan: User -> seq<KPhoto>, files: set<string>): (r: Db)
    ensures r.users == db.users && r.nextId >= db.nextId
    decreases |users|
  {
    if |users| == 0 then db
    else SyncUsers(SyncUser(db, users[0], scan(users[0]), files).db, users[1..], scan, files)
  }

  /** `manageStartData`: seed the users only when there are none, then run every user's pass. */
  function ManageStartData(db: Db, initialUsers: seq<User>, scan: User -> seq<KPhoto>, files: set<string>): (r: Db)
    ensures |db.users| == 0 ==> r.users == initialUsers
    ensures |db.users| > 0 ==> r.users == db.users
  {
    var seeded := if |db.users| == 0 then db.(users := initialUsers) else db;
    SyncUsers(seeded, seeded.users, scan, files)
  }

  /**
   * Across all passes, a row survives when, for every user whose id owns it,
   * its file exists under that user's store path.
   */
  lemma {:induction false} SyncUsersKeeps(db: Db, users: seq<User>, scan: User -> seq<KPhoto>, files: set<string>, q: KPhoto)
    requires WellKeyed(db) && q in db.photos
    requires forall u :: u in users && u.id == q.ownerUserId ==> FileExists(files, u, q)
    ensures q in SyncUsers(db, users, scan, files).photos
    decreases |users|
  {
    if |users| > 0 {
      var next := SyncUser(db, users[0], scan(users[0]), files).db;
      KeptUnlessMissing(db, users[0], scan(users[0]), files, q);
      SyncUserWellKeyed(db, users[0], scan(users[0]), files);
      assert forall u :: u in users[1..] ==> u in users;
      SyncUsersKeeps(next, users[1..], scan, files, q);
    }
  }
}
