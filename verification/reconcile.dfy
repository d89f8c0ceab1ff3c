/**
 * `DataScan::update_database` (both Rust generations): from the scan results,
 * a snapshot of every catalog row and the set of paths that exist in storage,
 * the database calls to make. Found rows whose full name is new to the whole
 * catalog are inserted in chunks of 512; then the user's snapshot rows whose
 * file is gone are deleted in one call. A failing call panics and ends the run.
 */
module Reconcile {
  import opened Wrappers
  import opened Seqs
  import opened Photos

  const CHUNK_SIZE: nat := 512

  datatype DbOp = Insert(rows: seq<Photo>) | Delete(ids: seq<int>)

  /** `existing_photos.iter().map(full_name)`: the full names of all rows, of every owner. */
  function ExistingNames(existing: seq<Photo>): (names: seq<string>)
    ensures |names| == |existing|
    ensures forall k :: 0 <= k < |existing| ==> names[k] == PhotoFullName(existing[k])
  {
    seq(|existing|, k requires 0 <= k < |existing| => PhotoFullName(existing[k]))
  }

  lemma ExistingNamesMembership(existing: seq<Photo>, name: string)
    ensures name in ExistingNames(existing) <==> exists q :: q in existing && PhotoFullName(q) == name
  {
    var names := ExistingNames(existing);
    if name in names {
      var k :| 0 <= k < |names| && names[k] == name;
      assert existing[k] in existing;
    }
  }

  /** `found.retain(|p| !names.contains(&p.full_name()))`. */
  function KeepNew(found: seq<Photo>, names: seq<string>): (r: seq<Photo>)
    ensures |r| <= |found|
    ensures forall p :: p in r <==> p in found && PhotoFullName(p) !in names
  {
    Filter(found, (p: Photo) => PhotoFullName(p) !in names)
  }

  /** Rows that are all new are kept as they are, in order. */
  lemma KeepNewKeepsAll(found: seq<Photo>, names: seq<string>)
    requires forall k :: 0 <= k < |found| ==> PhotoFullName(found[k]) !in names
    ensures KeepNew(found, names) == found
  {
    FilterAll(found, (p: Photo) => PhotoFullName(p) !in names);
  }

  /** Retaining distributes over a split of the found rows. */
  lemma KeepNewConcat(a: seq<Photo>, b: seq<Photo>, names: seq<string>)
    ensures KeepNew(a + b, names) == KeepNew(a, names) + KeepNew(b, names)
  {
    FilterConcat(a, b, (p: Photo) => PhotoFullName(p) !in names);
  }

  /** The storage path the deletion pass checks: `{user_name}/{full_name}`. */
  function StoredPath(user: User, p: Photo): string {
    user.userName + "/" + PhotoFullName(p)
  }

  /** For the user's own rows the checked path is the row's `partial_path`. */
  lemma StoredPathIsPartialPath(user: User, p: Photo)
    requires p.owner == user.id
    ensures PartialPath(p, user) == Ok(StoredPath(user, p))
  {
  }

  predicate IsRemoved(user: User, paths: set<string>, p: Photo) {
    p.owner == user.id && StoredPath(user, p) !in paths
  }

  /** The ids of the snapshot rows of `user` whose file no longer exists, in snapshot order. */
  function RemovedIds(user: User, existing: seq<Photo>, paths: set<string>): (ids: seq<int>)
    ensures |ids| <= |existing|
    ensures forall id :: id in ids <==> exists q :: q in existing && q.id == id && IsRemoved(user, paths, q)
  {
    if |existing| == 0 then []
    else
      var rest := RemovedIds(user, existing[1..], paths);
      assert existing == [existing[0]] + existing[1..];
      if IsRemoved(user, paths, existing[0]) then [existing[0].id] + rest else rest
  }

  function InsertOps(chunks: seq<seq<Photo>>): (ops: seq<DbOp>)
    ensures |ops| == |chunks|
    ensures forall k :: 0 <= k < |ops| ==> ops[k] == Insert(chunks[k])
  {
    seq(|chunks|, k requires 0 <= k < |chunks| => Insert(chunks[k]))
  }

  /**
   * The calls made for one user: the insert chunks (if any rows are new), then
   * one delete (if any ids). A user with nothing new and nothing removed
   * costs no call at all; with removed ids, the delete is the last call.
   */
  function UserOps(user: User, found: seq<Photo>, names: seq<string>, existing: seq<Photo>, paths: set<string>): (r: seq<DbOp>)
    ensures r == [] <==> |KeepNew(found, names)| == 0 && |RemovedIds(user, existing, paths)| == 0
    ensures |RemovedIds(user, existing, paths)| > 0 ==>
      |r| > 0 && r[|r| - 1] == Delete(RemovedIds(user, existing, paths))
    ensures |RemovedIds(user, existing, paths)| == 0 ==> forall k :: 0 <= k < |r| ==> r[k].Insert?
  {
    var kept := KeepNew(found, names);
    var removed := RemovedIds(user, existing, paths);
    var inserts := if |kept| == 0 then [] else InsertOps(Chunks(kept, CHUNK_SIZE));
    var deletes := if |removed| == 0 then [] else [Delete(removed)];
    inserts + deletes
  }

  /** The rows of all insert calls, in call order. */
  function InsertedRows(ops: seq<DbOp>): seq<Photo> {
    if |ops| == 0 then []
    else (if ops[0].Insert? then ops[0].rows else []) + InsertedRows(ops[1..])
  }

  lemma {:induction false} InsertedRowsOfChunks(chunks: seq<seq<Photo>>)
    ensures InsertedRows(InsertOps(chunks)) == Flatten(chunks)
  {
    if |chunks| > 0 {
      assert InsertOps(chunks)[1..] == InsertOps(chunks[1..]);
      InsertedRowsOfChunks(chunks[1..]);
    }
  }

  /**
   * The calls for one user: inserts carry exactly the new rows in order, each
   * call at most 512 and none empty; then at most one non-empty delete with
   * exactly the removed ids.
   */
  lemma UserOpsShape(user: User, found: seq<Photo>, names: seq<string>, existing: seq<Photo>, paths: set<string>)
    ensures var ops := UserOps(user, found, names, existing, paths);
      forall k :: 0 <= k < |ops| && ops[k].Insert? ==> 0 < |ops[k].rows| <= CHUNK_SIZE
    ensures var ops := UserOps(user, found, names, existing, paths);
      forall k :: 0 <= k < |ops| && ops[k].Delete? ==>
        k == |ops| - 1 && ops[k].ids == RemovedIds(user, existing, paths) && |ops[k].ids| > 0
    ensures InsertedRows(UserOps(user, found, names, existing, paths)) == KeepNew(found, names)
  {
    var kept := KeepNew(found, names);
    var removed := RemovedIds(user, existing, paths);
    var inserts := if |kept| == 0 then [] else InsertOps(Chunks(kept, CHUNK_SIZE));
    var deletes := if |removed| == 0 then [] else [Delete(removed)];
    InsertedRowsConcat(inserts, deletes);
    if |kept| > 0 {
      InsertedRowsOfChunks(Chunks(kept, CHUNK_SIZE));
    }
    if |removed| > 0 {
      assert InsertedRows(deletes) == [] by {
        assert deletes[1..] == [];
      }
    }
  }

  lemma {:induction false} InsertedRowsConcat(a: seq<DbOp>, b: seq<DbOp>)
    ensures InsertedRows(a + b) == InsertedRows(a) + InsertedRows(b)
  {
    if |a| > 0 {
      assert (a + b)[1..] == a[1..] + b;
      assert (a + b)[0] == a[0];
      InsertedRowsConcat(a[1..], b);
    } else {
      assert a + b == b;
    }
  }

  /** The whole plan: each scanned user's calls, in result order, all against the same snapshot. */
  function Plan(results: seq<(User, seq<Photo>)>, existing: seq<Photo>, paths: set<string>): (r: seq<DbOp>)
    ensures r == [] <==>
      forall k :: 0 <= k < |results| ==> UserOps(results[k].0, results[k].1, ExistingNames(existing), existing, paths) == []
  {
    if |results| == 0 then []
    else
      assert forall k :: 1 <= k < |results| ==> results[1..][k - 1] == results[k];
      UserOps(results[0].0, results[0].1, ExistingNames(existing), existing, paths) + Plan(results[1..], existing, paths)
  }

  lemma {:induction false} PlanMembership(results: seq<(User, seq<Photo>)>, existing: seq<Photo>, paths: set<string>, op: DbOp)
    ensures op in Plan(results, existing, paths) <==>
      exists k :: 0 <= k < |results| && op in UserOps(results[k].0, results[k].1, ExistingNames(existing), existing, paths)
  {
    if |results| > 0 {
      PlanMembership(results[1..], existing, paths, op);
      forall k | 1 <= k < |results| ensures results[k] == results[1..][k - 1] {}
    }
  }

  /**
   * Nothing inserted shares a full name with any existing row, whoever owns
   * it; every deleted id is that of a snapshot row of a scanned user whose
   * file is missing.
   */
  lemma PlanRespectsCatalog(results: seq<(User, seq<Photo>)>, existing: seq<Photo>, paths: set<string>, op: DbOp)
    requires op in Plan(results, existing, paths)
    ensures op.Insert? ==> |op.rows| > 0 && forall p :: p in op.rows ==>
      (forall q :: q in existing ==> PhotoFullName(q) != PhotoFullName(p)) &&
      exists k :: 0 <= k < |results| && p in results[k].1
    ensures op.Delete? ==> |op.ids| > 0 && forall id :: id in op.ids ==>
      exists k, q :: 0 <= k < |results| && q in existing && q.id == id && IsRemoved(results[k].0, paths, q)
  {
    PlanMembership(results, existing, paths, op);
    var k :| 0 <= k < |results| && op in UserOps(results[k].0, results[k].1, ExistingNames(existing), existing, paths);
    var names := ExistingNames(existing);
    var (user, found) := results[k];
    var ops := UserOps(user, found, names, existing, paths);
    UserOpsShape(user, found, names, existing, paths);
    var i :| 0 <= i < |ops| && ops[i] == op;
    if op.Insert? {
      InsertedRowsMembership(ops, i);
      forall p | p in op.rows
        ensures forall q :: q in existing ==> PhotoFullName(q) != PhotoFullName(p)
      {
        assert p in KeepNew(found, names);
        ExistingNamesMembership(existing, PhotoFullName(p));
      }
    }
  }

  lemma {:induction false} InsertedRowsMembership(ops: seq<DbOp>, i: nat)
    requires i < |ops| && ops[i].Insert?
    ensures forall p :: p in ops[i].rows ==> p in InsertedRows(ops)
  {
    if i > 0 {
      InsertedRowsMembership(ops[1..], i - 1);
    }
  }

  /**
   * Already-catalogued files are untouched: with ids unique in the snapshot, a
   * row whose file exists under every scanned user of its owner id is never
   * deleted.
   */
  lemma CataloguedRowsKept(results: seq<(User, seq<Photo>)>, existing: seq<Photo>, paths: set<string>, q: Photo)
    requires DistinctIds(existing)
    requires q in existing
    requires forall k :: 0 <= k < |results| && results[k].0.id == q.owner ==> StoredPath(results[k].0, q) in paths
    ensures forall op :: op in Plan(results, existing, paths) && op.Delete? ==> q.id !in op.ids
  {
    forall op | op in Plan(results, existing, paths) && op.Delete?
      ensures q.id !in op.ids
    {
      if q.id in op.ids {
        PlanRespectsCatalog(results, existing, paths, op);
        var k, q' :| 0 <= k < |results| && q' in existing && q'.id == q.id && IsRemoved(results[k].0, paths, q');
        UniqueIds(existing, q, q');
      }
    }
  }

  /** Row ids are unique in the catalog, as database keys are. */
  predicate DistinctIds(rows: seq<Photo>) {
    forall a, b :: 0 <= a < b < |rows| ==> rows[a].id != rows[b].id
  }

  /** With unique ids, a snapshot row is determined by its id. */
  lemma UniqueIds(existing: seq<Photo>, q: Photo, q': Photo)
    ensures DistinctIds(existing) && q in existing && q' in existing && q.id == q'.id ==> q == q'
  {
    if DistinctIds(existing) && q in existing && q' in existing && q.id == q'.id {
      var a :| 0 <= a < |existing| && existing[a] == q;
      var b :| 0 <= b < |existing| && existing[b] == q';
      assert !(a < b) && !(b < a);
    }
  }

  /**
   * A found row is not inserted when any user's existing row has the same full
   * name: the comparison is against the names of the whole catalog.
   */
  lemma CrossUserShadowing(results: seq<(User, seq<Photo>)>, existing: seq<Photo>, paths: set<string>, p: Photo, q: Photo)
    requires q in existing && PhotoFullName(q) == PhotoFullName(p)
    ensures forall op :: op in Plan(results, existing, paths) && op.Insert? ==> p !in op.rows
  {
    forall op | op in Plan(results, existing, paths) && op.Insert?
      ensures p !in op.rows
    {
      PlanRespectsCatalog(results, existing, paths, op);
    }
  }

  /** The calls sent before the run ends, and whether it ran to the end without a panic. */
  datatype Run = Run(sent: seq<DbOp>, completed: bool)

  /**
   * Sending the calls in order, with the database's answer to each as an
   * input: the first failed call is the last one sent, and it panics.
   */
  function Execute(ops: seq<DbOp>, succeeds: seq<bool>): (r: Run)
    requires |succeeds| == |ops|
    ensures |r.sent| <= |ops| && r.sent == ops[..|r.sent|]
    ensures r.completed <==> forall k :: 0 <= k < |ops| ==> succeeds[k]
    ensures r.completed ==> r.sent == ops
    ensures !r.completed ==> |r.sent| > 0 && !succeeds[|r.sent| - 1]
    ensures forall k :: 0 <= k < |r.sent| - 1 ==> succeeds[k]
  {
    if |ops| == 0 then Run([], true)
    else if !succeeds[0] then Run([ops[0]], false)
    else
      var rest := Execute(ops[1..], succeeds[1..]);
      assert forall k :: 1 <= k < |ops| ==> succeeds[k] == succeeds[1..][k - 1];
      Run([ops[0]] + rest.sent, rest.completed)
  }

  /** The catalog after a successful call: inserted rows appended, deleted ids dropped. */
  function ApplyOp(catalog: seq<Photo>, op: DbOp): seq<Photo> {
    match op
    case Insert(rows) => catalog + rows
    case Delete(ids) => Filter(catalog, (p: Photo) => p.id !in ids)
  }

  /**
   * The catalog after applying every given call in order. Given all sent
   * calls, it also applies a failing last call; of the rows already in the
   * catalog, that extra call can only remove more.
   */
  function ApplyAll(catalog: seq<Photo>, ops: seq<DbOp>): seq<Photo>
    decreases |ops|
  {
    if |ops| == 0 then catalog else ApplyAll(ApplyOp(catalog, ops[0]), ops[1..])
  }

  lemma {:induction false} ApplyAllKeeps(catalog: seq<Photo>, ops: seq<DbOp>, q: Photo)
    requires q in catalog
    requires forall k :: 0 <= k < |ops| && ops[k].Delete? ==> q.id !in ops[k].ids
    ensures q in ApplyAll(catalog, ops)
    decreases |ops|
  {
    if |ops| > 0 {
      assert q in ApplyOp(catalog, ops[0]);
      forall k | 0 <= k < |ops[1..]| && ops[1..][k].Delete? ensures q.id !in ops[1..][k].ids {
        assert ops[1..][k] == ops[k + 1];
      }
      ApplyAllKeeps(ApplyOp(catalog, ops[0]), ops[1..], q);
    }
  }

  /**
   * End to end: whatever the database answers, a catalogued row whose file
   * still exists is in the catalog when the run stops.
   */
  lemma RunKeepsCataloguedRows(results: seq<(User, seq<Photo>)>, existing: seq<Photo>, paths: set<string>,
                               succeeds: seq<bool>, q: Photo)
    requires |succeeds| == |Plan(results, existing, paths)|
    requires DistinctIds(existing)
    requires q in existing
    requires forall k :: 0 <= k < |results| && results[k].0.id == q.owner ==> StoredPath(results[k].0, q) in paths
    ensures q in ApplyAll(existing, Execute(Plan(results, existing, paths), succeeds).sent)
  {
    var plan := Plan(results, existing, paths);
    var sent := Execute(plan, succeeds).sent;
    CataloguedRowsKept(results, existing, paths, q);
    forall k | 0 <= k < |sent| && sent[k].Delete? ensures q.id !in sent[k].ids {
      assert sent[k] == plan[k];
      assert plan[k] in plan;
    }
    ApplyAllKeeps(existing, sent, q);
  }
}
