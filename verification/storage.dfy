/** `DatabaseStorage`: the `users` and `dvds` tables as maps, with the
    serial counter that assigns DVD ids. Every DVD read and write is scoped
    by the predicate "this id and this owner". */
module Storage {
  import opened Base
  import opened Schema
  import opened Strings

  datatype Db = Db(users: map<string, User>, dvds: map<nat, Dvd>, nextId: nat)

  /** A fresh database: no rows, the serial starts at 1. */
  const EmptyDb: Db := Db(map[], map[], 1)

  /** The unique constraint on `users.email` (nulls never clash). */
  ghost predicate EmailsUnique(users: map<string, User>) {
    forall a, b :: a in users && b in users && a != b && users[a].email.Some? ==> users[a].email != users[b].email
  }

  /** The table constraints: each row sits under its own key, DVD ids come
      from the serial, every DVD references an existing user, emails are
      unique. */
  ghost predicate Valid(db: Db) {
    && db.nextId >= 1
    && (forall id :: id in db.dvds ==> db.dvds[id].id == id && 1 <= id < db.nextId)
    && (forall id :: id in db.dvds ==> db.dvds[id].userId in db.users)
    && (forall k :: k in db.users ==> db.users[k].id == k)
    && EmailsUnique(db.users)
  }

  lemma EmptyDbValid()
    ensures Valid(EmptyDb)
  {
  }

  /** The guard of `getDvd`, `updateDvd` and `deleteDvd`:
      `id = ? AND user_id = ?`. */
  predicate OwnedBy(db: Db, id: int, owner: string) {
    id >= 0 && id as nat in db.dvds && db.dvds[id as nat].userId == owner
  }

  // ---------------------------------------------------------------------------
  // Users
  // ---------------------------------------------------------------------------

  /** `getUser(id)`. */
  function GetUser(db: Db, id: string): (r: Option<User>)
    ensures r.Some? <==> id in db.users
    ensures r.Some? ==> r.value == db.users[id]
  {
    if id in db.users then Some(db.users[id]) else None
  }

  /** The value a column ends up with: the given one (null included), or,
      for a key left out, what the row already holds (null for a new row,
      since the insert leaves the column to its default and the update's
      `set` skips undefined keys). */
  function Given(v: Option<Option<string>>, stored: Option<string>): (r: Option<string>)
    ensures v.Some? ==> r == v.value
    ensures v.None? ==> r == stored
  {
    if v.Some? then v.value else stored
  }

  /** The row an upsert writes, before the constraints are checked. */
  function Upserted(users: map<string, User>, data: UpsertUser, now: int): User {
    if data.id in users then
      var stored := users[data.id];
      User(data.id, Given(data.email, stored.email), Given(data.firstName, stored.firstName),
        Given(data.lastName, stored.lastName), Given(data.profileImageUrl, stored.profileImageUrl),
        stored.createdAt, Some(now))
    else
      User(data.id, Given(data.email, None), Given(data.firstName, None),
        Given(data.lastName, None), Given(data.profileImageUrl, None), Some(now), Some(now))
  }

  /** Another user already holds the (non-null) email the row would get. */
  predicate EmailTaken(users: map<string, User>, data: UpsertUser, now: int) {
    var email := Upserted(users, data, now).email;
    email.Some? && exists k :: k in users && k != data.id && users[k].email == email
  }

  /** `upsertUser`: insert, or on an id conflict overwrite the identity
      fields the argument carries and stamp `updatedAt`. A clash on the
      unique email is an error. */
  function UpsertUserRow(db: Db, data: UpsertUser, now: int): (r: Result<(Db, User), string>)
    ensures r.Failure? <==> EmailTaken(db.users, data, now)
    ensures r.Success? ==> r.value.0.dvds == db.dvds && r.value.0.nextId == db.nextId
    ensures r.Success? ==> r.value.0.users == db.users[data.id := r.value.1]
    ensures r.Success? ==> var u := r.value.1;
      && u.id == data.id && u.updatedAt == Some(now)
      && (data.email.Some? ==> u.email == data.email.value)
      && (data.firstName.Some? ==> u.firstName == data.firstName.value)
      && (data.lastName.Some? ==> u.lastName == data.lastName.value)
      && (data.profileImageUrl.Some? ==> u.profileImageUrl == data.profileImageUrl.value)
    ensures r.Success? && data.id in db.users ==> var u, stored := r.value.1, db.users[data.id];
      && u.createdAt == stored.createdAt
      && (data.email.None? ==> u.email == stored.email)
      && (data.firstName.None? ==> u.firstName == stored.firstName)
      && (data.lastName.None? ==> u.lastName == stored.lastName)
      && (data.profileImageUrl.None? ==> u.profileImageUrl == stored.profileImageUrl)
    ensures r.Success? && data.id !in db.users ==> var u := r.value.1;
      && u.createdAt == Some(now)
      && (data.email.None? ==> u.email.None?)
      && (data.firstName.None? ==> u.firstName.None?)
      && (data.lastName.None? ==> u.lastName.None?)
      && (data.profileImageUrl.None? ==> u.profileImageUrl.None?)
    ensures r.Success? && Valid(db) ==> Valid(r.value.0)
  {
    if EmailTaken(db.users, data, now) then Failure("duplicate key value violates unique constraint on email")
    else
      var u := Upserted(db.users, data, now);
      Success((db.(users := db.users[data.id := u]), u))
  }

  /** Signing in again with only the id changes nothing but `updatedAt`:
      every identity field left out keeps its stored value. */
  lemma UpsertOmittedKeepsRow(db: Db, id: string, now: int)
    requires Valid(db) && id in db.users
    ensures UpsertUserRow(db, UpsertUser(id, None, None, None, None), now)
      == Success((db.(users := db.users[id := db.users[id].(updatedAt := Some(now))]),
                  db.users[id].(updatedAt := Some(now))))
  {
    var data := UpsertUser(id, None, None, None, None);
    assert Upserted(db.users, data, now) == db.users[id].(updatedAt := Some(now));
    assert !EmailTaken(db.users, data, now);
  }

  // ---------------------------------------------------------------------------
  // DVD reads
  // ---------------------------------------------------------------------------

  /** `getUserDvds(owner)`: the rows whose `user_id` is the owner, in no
      particular order. */
  function GetUserDvds(db: Db, owner: string): (r: set<Dvd>)
    ensures forall id :: id in db.dvds && db.dvds[id].userId == owner ==> db.dvds[id] in r
    ensures forall d :: d in r ==> d.userId == owner && exists id :: id in db.dvds && db.dvds[id] == d
  {
    set id | id in db.dvds && db.dvds[id].userId == owner :: db.dvds[id]
  }

  /** `getDvd(id, owner)`. */
  function GetDvd(db: Db, id: int, owner: string): (r: Option<Dvd>)
    ensures r.Some? <==> OwnedBy(db, id, owner)
    ensures r.Some? ==> r.value in GetUserDvds(db, owner) && r.value == db.dvds[id as nat]
  {
    if OwnedBy(db, id, owner) then Some(db.dvds[id as nat]) else None
  }

  /** Another owner's record is invisible: it reads as not found. */
  lemma GetDvdOtherOwner(db: Db, id: nat, owner: string, other: string)
    requires id in db.dvds && db.dvds[id].userId == owner && other != owner
    ensures GetDvd(db, id, other).None?
  {
  }

  // ---------------------------------------------------------------------------
  // DVD writes
  // ---------------------------------------------------------------------------

  /** The row `createDvd` inserts: the payload's fields, the owner, the
      assigned id and the insertion time. */
  function NewRow(ins: InsertDvd, id: nat, owner: string, now: int): (d: Dvd)
    ensures d.id == id && d.userId == owner && d.createdAt == Some(now)
    ensures Payload(d) == ins
  {
    Dvd(id, owner, ins.title, ins.year, ins.genre, ins.director, ins.status, ins.posterUrl, ins.barcode, Some(now))
  }

  /** The caller-controlled fields of a row. */
  function Payload(d: Dvd): InsertDvd {
    InsertDvd(d.title, d.year, d.genre, d.director, d.status, d.posterUrl, d.barcode)
  }

  /** `createDvd(ins, owner)`: one new row under a fresh serial id. The
      foreign key on `user_id` refuses an unknown owner. */
  function CreateDvd(db: Db, ins: InsertDvd, owner: string, now: int): (r: Result<(Db, Dvd), string>)
    ensures r.Failure? <==> owner !in db.users
    ensures r.Success? ==> var (db', d) := r.value;
      && Payload(d) == ins && d.userId == owner
      && (Valid(db) ==> d.id !in db.dvds)
      && db'.dvds == db.dvds[d.id := d] && db'.users == db.users
      && db'.nextId > d.id
    ensures r.Success? && Valid(db) ==> Valid(r.value.0)
  {
    if owner !in db.users then Failure("insert violates foreign key constraint on user_id")
    else
      var d := NewRow(ins, db.nextId, owner, now);
      Success((Db(db.users, db.dvds[d.id := d], db.nextId + 1), d))
  }

  /** `.set(updates)`: each field the patch carries is overwritten, every
      other column (and `id`, `userId`, `createdAt`) is kept. */
  function ApplyPatch(d: Dvd, p: Patch): (d': Dvd)
    ensures d'.id == d.id && d'.userId == d.userId && d'.createdAt == d.createdAt
    ensures d'.title == (if p.title.Some? then p.title.value else d.title)
    ensures d'.year == (if p.year.Some? then p.year.value else d.year)
    ensures d'.genre == (if p.genre.Some? then p.genre.value else d.genre)
    ensures d'.director == (if p.director.Some? then p.director.value else d.director)
    ensures d'.status == (if p.status.Some? then p.status.value else d.status)
    ensures d'.posterUrl == (if p.posterUrl.Some? then p.posterUrl.value else d.posterUrl)
    ensures d'.barcode == (if p.barcode.Some? then p.barcode.value else d.barcode)
  {
    d.(
      title := if p.title.Some? then p.title.value else d.title,
      year := if p.year.Some? then p.year.value else d.year,
      genre := if p.genre.Some? then p.genre.value else d.genre,
      director := if p.director.Some? then p.director.value else d.director,
      status := if p.status.Some? then p.status.value else d.status,
      posterUrl := if p.posterUrl.Some? then p.posterUrl.value else d.posterUrl,
      barcode := if p.barcode.Some? then p.barcode.value else d.barcode)
  }

  const NoChanges: Patch := Patch(None, None, None, None, None, None, None)

  /** A patch that carries nothing leaves the row as it is, and applying a
      patch twice is applying it once. */
  lemma ApplyPatchLaws(d: Dvd, p: Patch)
    ensures ApplyPatch(d, NoChanges) == d
    ensures ApplyPatch(ApplyPatch(d, p), p) == ApplyPatch(d, p)
  {
  }

  /** `updateDvd(id, patch, owner)`: `.set` refuses a patch that carries no
      field at all ("No values to set"), whatever the id; otherwise nothing
      happens unless the id is the owner's, and no row is ever created. */
  function UpdateDvd(db: Db, id: int, p: Patch, owner: string): (r: Result<(Db, Option<Dvd>), string>)
    ensures r.Failure? <==> p == NoChanges
    ensures r.Success? ==> (r.value.1.None? <==> !OwnedBy(db, id, owner))
    ensures r.Success? && r.value.1.None? ==> r.value.0 == db
    ensures r.Success? && r.value.1.Some? ==>
      && r.value.0.users == db.users && r.value.0.nextId == db.nextId
      && r.value.0.dvds.Keys == db.dvds.Keys
      && r.value.0.dvds[id as nat] == r.value.1.value == ApplyPatch(db.dvds[id as nat], p)
      && (forall k :: k in db.dvds && k != id ==> r.value.0.dvds[k] == db.dvds[k])
    ensures r.Success? && Valid(db) ==> Valid(r.value.0)
  {
    if p == NoChanges then Failure("No values to set")
    else if !OwnedBy(db, id, owner) then Success((db, None))
    else
      var d := ApplyPatch(db.dvds[id as nat], p);
      Success((db.(dvds := db.dvds[id as nat := d]), Some(d)))
  }

  /** `deleteDvd(id, owner)`: reports whether a row was removed. */
  function DeleteDvd(db: Db, id: int, owner: string): (r: (Db, bool))
    ensures r.1 <==> OwnedBy(db, id, owner)
    ensures r.1 ==> r.0 == db.(dvds := db.dvds - {id as nat})
    ensures !r.1 ==> r.0 == db
    ensures Valid(db) ==> Valid(r.0)
  {
    if !OwnedBy(db, id, owner) then (db, false)
    else (db.(dvds := db.dvds - {id as nat}), true)
  }

  // ---------------------------------------------------------------------------
  // Search and filter
  // ---------------------------------------------------------------------------

  /** `title LIKE '%q%' OR director LIKE '%q%' OR genre LIKE '%q%'`; a null
      column never matches, and the match is case-sensitive. */
  predicate TextMatch(d: Dvd, q: string) {
    || Contains(d.title, q)
    || (d.director.Some? && Contains(d.director.value, q))
    || (d.genre.Some? && Contains(d.genre.value, q))
  }

  /** `searchDvds(q, owner)`. */
  function SearchDvds(db: Db, q: string, owner: string): (r: set<Dvd>)
    ensures r <= GetUserDvds(db, owner)
    ensures forall d :: d in GetUserDvds(db, owner) ==> (d in r <==> TextMatch(d, q))
  {
    set id | id in db.dvds && db.dvds[id].userId == owner && TextMatch(db.dvds[id], q) :: db.dvds[id]
  }

  /** The criteria of `filterDvds`; each is applied only when truthy. */
  datatype Criteria = Criteria(status: Option<string>, genre: Option<string>, year: Option<int>)

  predicate MeetsCriteria(d: Dvd, c: Criteria) {
    && (TruthyText(c.status) ==> d.status == c.status.value)
    && (TruthyText(c.genre) ==> d.genre.Some? && Contains(d.genre.value, c.genre.value))
    && (TruthyNumber(c.year) ==> d.year == c.year)
  }

  /** `filterDvds(criteria, owner)`. */
  function FilterDvds(db: Db, c: Criteria, owner: string): (r: set<Dvd>)
    ensures r <= GetUserDvds(db, owner)
    ensures forall d :: d in GetUserDvds(db, owner) ==> (d in r <==> MeetsCriteria(d, c))
  {
    set id | id in db.dvds && db.dvds[id].userId == owner && MeetsCriteria(db.dvds[id], c) :: db.dvds[id]
  }

  // ---------------------------------------------------------------------------
  // Properties relating several operations
  // ---------------------------------------------------------------------------

  /** An empty search text matches every title, so it lists all of the
      owner's records. */
  lemma SearchEmptyListsAll(db: Db, owner: string)
    ensures SearchDvds(db, "", owner) == GetUserDvds(db, owner)
  {
    forall d | d in GetUserDvds(db, owner)
      ensures d in SearchDvds(db, "", owner)
    {
      assert OccursAt(d.title, "", 0);
    }
  }

  /** With no criterion given, filtering lists all of the owner's records. */
  lemma FilterNothingListsAll(db: Db, owner: string)
    ensures FilterDvds(db, Criteria(None, None, None), owner) == GetUserDvds(db, owner)
  {
  }

  /** The filter is the intersection of the single-criterion filters. */
  lemma FilterIsIntersection(db: Db, c: Criteria, owner: string)
    ensures FilterDvds(db, c, owner)
         == FilterDvds(db, Criteria(c.status, None, None), owner)
          * FilterDvds(db, Criteria(None, c.genre, None), owner)
          * FilterDvds(db, Criteria(None, None, c.year), owner)
  {
    var all := GetUserDvds(db, owner);
    var a := FilterDvds(db, Criteria(c.status, None, None), owner);
    var b := FilterDvds(db, Criteria(None, c.genre, None), owner);
    var y := FilterDvds(db, Criteria(None, None, c.year), owner);
    forall d | d in a * b * y
      ensures d in FilterDvds(db, c, owner)
    {
      assert d in all;
    }
  }

  /** A record created by an owner reads back with the payload's fields
      under the new id, and joins that owner's list. */
  lemma CreateThenGet(db: Db, ins: InsertDvd, owner: string, now: int)
    requires Valid(db) && owner in db.users
    ensures var (db', d) := CreateDvd(db, ins, owner, now).value;
      && GetDvd(db', d.id, owner) == Some(d)
      && Payload(d) == ins
      && GetUserDvds(db', owner) == GetUserDvds(db, owner) + {d}
  {
    var (db', d) := CreateDvd(db, ins, owner, now).value;
    forall e | e in GetUserDvds(db', owner)
      ensures e in GetUserDvds(db, owner) + {d}
    {
      var id :| id in db'.dvds && db'.dvds[id] == e;
      if id != d.id {
        assert id in db.dvds && db.dvds[id] == e;
      }
    }
    forall e | e in GetUserDvds(db, owner)
      ensures e in GetUserDvds(db', owner)
    {
      var id :| id in db.dvds && db.dvds[id] == e;
      assert id != d.id;
      assert db'.dvds[id] == e;
    }
  }

  /** Deleting a record makes it unreadable, and a second delete of the same
      id reports that nothing was removed. */
  lemma DeleteThenDeleteAgain(db: Db, id: int, owner: string)
    ensures var (db', _) := DeleteDvd(db, id, owner);
      && GetDvd(db', id, owner).None?
      && !DeleteDvd(db', id, owner).1
  {
  }

  /** Two databases that hold the same rows of an owner list the same
      records for that owner. */
  lemma SameRowsSameList(a: Db, b: Db, owner: string)
    requires forall k :: k in a.dvds && a.dvds[k].userId == owner ==> k in b.dvds && b.dvds[k] == a.dvds[k]
    requires forall k :: k in b.dvds && b.dvds[k].userId == owner ==> k in a.dvds && a.dvds[k] == b.dvds[k]
    ensures GetUserDvds(a, owner) == GetUserDvds(b, owner)
  {
    forall e | e in GetUserDvds(a, owner)
      ensures e in GetUserDvds(b, owner)
    {
      var k :| k in a.dvds && a.dvds[k] == e;
    }
    forall e | e in GetUserDvds(b, owner)
      ensures e in GetUserDvds(a, owner)
    {
      var k :| k in b.dvds && b.dvds[k] == e;
    }
  }

  /** The records of every other owner are untouched by an owner's update,
      delete and create. */
  lemma UpdateLeavesOthers(db: Db, owner: string, other: string, id: int, p: Patch)
    requires other != owner
    ensures UpdateDvd(db, id, p, owner).Success? ==>
      GetUserDvds(UpdateDvd(db, id, p, owner).value.0, other) == GetUserDvds(db, other)
  {
    if p != NoChanges {
      SameRowsSameList(UpdateDvd(db, id, p, owner).value.0, db, other);
    }
  }

  lemma DeleteLeavesOthers(db: Db, owner: string, other: string, id: int)
    requires other != owner
    ensures GetUserDvds(DeleteDvd(db, id, owner).0, other) == GetUserDvds(db, other)
  {
    SameRowsSameList(DeleteDvd(db, id, owner).0, db, other);
  }

  lemma CreateLeavesOthers(db: Db, owner: string, other: string, ins: InsertDvd, now: int)
    requires Valid(db) && other != owner && owner in db.users
    ensures GetUserDvds(CreateDvd(db, ins, owner, now).value.0, other) == GetUserDvds(db, other)
  {
    SameRowsSameList(CreateDvd(db, ins, owner, now).value.0, db, other);
  }
}
