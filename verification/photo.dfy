/**
 * The catalog records of both server generations: the Rust `Photo` row and
 * the Kotlin `Photo` entity, with the path naming they share. A photo lives
 * at `<user name>/<folder>/<name>` under the storage root, the folder being
 * optional.
 */
module Photos {
  import opened Wrappers
  import opened Ints
  import opened Text
  import Civil

  datatype User = User(id: int, userName: string)

  /** A Rust catalog row. `id` 0 marks a row not yet inserted. */
  datatype Photo = Photo(id: int, owner: int, name: string, timeCreated: Civil.DateTime,
                         fileSize: int, folder: Option<string>, caption: Option<string>)

  /** The path of a photo inside its owner's directory: `folder/name`, or `name` alone. */
  function FullName(folder: Option<string>, name: string): (r: string)
    ensures folder.None? ==> r == name
    ensures folder.Some? ==> r == folder.value + "/" + name
    ensures EndsWith(r, name)
  {
    match folder
    case None => name
    case Some(f) => f + "/" + name
  }

  /**
   * Folder and name are recovered from the full name when neither holds a
   * `/`, which is the case for names taken from single path components.
   */
  lemma {:induction false} FullNameInjective(f1: Option<string>, n1: string, f2: Option<string>, n2: string)
    requires '/' !in n1 && '/' !in n2
    requires f1.Some? ==> '/' !in f1.value
    requires f2.Some? ==> '/' !in f2.value
    requires FullName(f1, n1) == FullName(f2, n2)
    ensures f1 == f2 && n1 == n2
  {
    match (f1, f2)
    case (None, None) =>
    case (Some(a), None) => SlashInside(a, n1);
    case (None, Some(b)) => SlashInside(b, n2);
    case (Some(a), Some(b)) => SplitAtFirstSlash(a, n1, b, n2);
  }

  lemma SlashInside(a: string, x: string)
    ensures '/' in a + "/" + x
  {
    assert (a + "/" + x)[|a|] == '/';
  }

  lemma SlashInPrefix(a: string, x: string, b: string, y: string)
    ensures |a| < |b| && a + "/" + x == b + "/" + y ==> '/' in b
  {
    if |a| < |b| && a + "/" + x == b + "/" + y {
      assert b[|a|] == (b + "/" + y)[|a|];
    }
  }

  /** A string splits at its first `/` in only one way. */
  lemma SplitAtFirstSlash(a: string, x: string, b: string, y: string)
    ensures '/' !in a && '/' !in b && a + "/" + x == b + "/" + y ==> a == b && x == y
  {
    var r := a + "/" + x;
    if '/' !in a && '/' !in b && r == b + "/" + y {
      if |a| < |b| {
        SlashInPrefix(a, x, b, y);
      } else if |b| < |a| {
        SlashInPrefix(b, y, a, x);
      } else {
        assert a == r[..|a|] == b;
        assert x == r[|a| + 1..] == y;
      }
    }
  }

  function PhotoFullName(p: Photo): string {
    FullName(p.folder, p.name)
  }

  /** `Photo::partial_path`: the photo's path below the storage root, for its owner only. */
  function PartialPath(p: Photo, user: User): (r: Result<string, string>)
    ensures r.Err? <==> p.owner != user.id
    ensures r.Ok? ==> r.value == user.userName + "/" + PhotoFullName(p)
  {
    if p.owner != user.id then Err("Photo owner does not match user id")
    else Ok(user.userName + "/" + PhotoFullName(p))
  }

  /** Within one user's directory, distinct full names give distinct paths. */
  lemma PartialPathInjective(p: Photo, q: Photo, user: User)
    requires PartialPath(p, user).Ok? && PartialPath(q, user).Ok?
    requires PartialPath(p, user) == PartialPath(q, user)
    ensures PhotoFullName(p) == PhotoFullName(q)
  {
    var prefix := user.userName + "/";
    assert PartialPath(p, user).value == prefix + PhotoFullName(p);
    assert PartialPath(q, user).value == prefix + PhotoFullName(q);
    assert PhotoFullName(p) == (prefix + PhotoFullName(p))[|prefix|..];
    assert PhotoFullName(q) == (prefix + PhotoFullName(q))[|prefix|..];
  }

  // ---------------------------------------------------------------------
  // The Kotlin entity (both the `familyphotos` and the `homeserver` packages).

  /** A Kotlin `Photo` entity; `timeCreated` is epoch milliseconds. */
  datatype KPhoto = KPhoto(id: int, ownerUserId: int, name: string, timeCreated: int, fileSize: int, folder: Option<string>)

  function KFullName(p: KPhoto): string {
    FullName(p.folder, p.name)
  }

  const STORE_ROOT: string := "photos/"

  /**
   * `getStorePath`: `photos/<user name>/<full name>`; `require` throws
   * (modelled as `Err`) when the user does not own the photo.
   */
  function StorePath(p: KPhoto, user: User): (r: Result<string, string>)
    ensures r.Err? <==> user.id != p.ownerUserId
    ensures r.Ok? ==> r.value == STORE_ROOT + user.userName + "/" + KFullName(p)
  {
    if user.id != p.ownerUserId then Err("Passed user does not match owner id")
    else Ok(STORE_ROOT + user.userName + "/" + KFullName(p))
  }

  /** The store path always ends with the full name, below the user's directory. */
  lemma StorePathEndsWithFullName(p: KPhoto, user: User)
    requires user.id == p.ownerUserId
    ensures StorePath(p, user).Ok?
    ensures EndsWith(StorePath(p, user).value, KFullName(p))
    ensures EndsWith(StorePath(p, user).value, "/" + KFullName(p))
  {
    var path := StorePath(p, user).value;
    assert path == (STORE_ROOT + user.userName) + ("/" + KFullName(p));
  }

  /** The Kotlin store path is the Rust partial path of the same photo under `photos/`. */
  lemma StorePathIsPartialPath(k: KPhoto, p: Photo, user: User)
    requires k.ownerUserId == p.owner && k.name == p.name && k.folder == p.folder
    ensures StorePath(k, user).Ok? <==> PartialPath(p, user).Ok?
    ensures StorePath(k, user).Ok? ==> StorePath(k, user).value == STORE_ROOT + PartialPath(p, user).value
  {
  }

  /**
   * `equals` of the `familyphotos` entity: two photos of the entity class are
   * equal iff their ids are, whatever their other fields hold; so equal
   * photos agree on `hashCode`.
   */
  predicate KEquals(a: KPhoto, b: KPhoto): (eq: bool)
    ensures a == b ==> eq
    ensures eq ==> KHashCode(a) == KHashCode(b)
  {
    a.id == b.id
  }

  /** `hashCode` of the `familyphotos` entity: `id.toInt()`, the low 32 bits of the id. */
  function KHashCode(p: KPhoto): (h: int)
    ensures -0x8000_0000 <= h < 0x8000_0000
    ensures (h - p.id) % 0x1_0000_0000 == 0
  {
    LongToInt(p.id)
  }

  /** The `equals`/`hashCode` contract: equality is an equivalence and equal photos hash alike. */
  lemma EqualsHashContract(a: KPhoto, b: KPhoto, c: KPhoto)
    ensures KEquals(a, a)
    ensures KEquals(a, b) ==> KEquals(b, a)
    ensures KEquals(a, b) && KEquals(b, c) ==> KEquals(a, c)
    ensures KEquals(a, b) ==> KHashCode(a) == KHashCode(b)
  {
  }

  /** Ids 2^32 apart collide in the hash while the photos stay unequal. */
  lemma HashCollision(a: KPhoto, b: KPhoto)
    requires b.id == a.id + 0x1_0000_0000
    ensures !KEquals(a, b) && KHashCode(a) == KHashCode(b)
  {
    assert (KHashCode(a) - KHashCode(b)) % 0x1_0000_0000 == 0;
  }
}
