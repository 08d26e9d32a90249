/** The user table: unique lookups by id, email and username, the filtered
    and name-sorted user list, and the writes that create and update rows. */
module UserRepository {
  import opened Wrappers
  import opened Entities
  import opened Errors
  import opened Text
  import Sorting

  /** Two users clash when they share any unique column. */
  predicate Clash(a: User, b: User) {
    a.id == b.id || a.email == b.email || a.username == b.username
  }

  ghost predicate KeysUnique(rows: seq<User>) {
    forall i, j :: 0 <= i < j < |rows| ==> !Clash(rows[i], rows[j])
  }

  /** `findById`. */
  function FindById(rows: seq<User>, id: Id): (r: Option<User>)
    ensures r.Some? ==> r.value in rows && r.value.id == id
    ensures r.None? ==> forall u :: u in rows ==> u.id != id
  {
    if rows == [] then None
    else if rows[0].id == id then Some(rows[0])
    else FindById(rows[1..], id)
  }

  /** `findByEmail`. */
  function FindByEmail(rows: seq<User>, email: string): (r: Option<User>)
    ensures r.Some? ==> r.value in rows && r.value.email == email
    ensures r.None? ==> forall u :: u in rows ==> u.email != email
  {
    if rows == [] then None
    else if rows[0].email == email then Some(rows[0])
    else FindByEmail(rows[1..], email)
  }

  /** `findByUsername`. */
  function FindByUsername(rows: seq<User>, username: string): (r: Option<User>)
    ensures r.Some? ==> r.value in rows && r.value.username == username
    ensures r.None? ==> forall u :: u in rows ==> u.username != username
  {
    if rows == [] then None
    else if rows[0].username == username then Some(rows[0])
    else FindByUsername(rows[1..], username)
  }

  /** In a table with unique keys, each lookup names the only row with that value. */
  lemma UniqueLookups(rows: seq<User>, u: User)
    requires KeysUnique(rows) && u in rows
    ensures FindById(rows, u.id) == Some(u)
    ensures FindByEmail(rows, u.email) == Some(u)
    ensures FindByUsername(rows, u.username) == Some(u)
  {
    var k :| 0 <= k < |rows| && rows[k] == u;
    var a, b, c := FindById(rows, u.id).value, FindByEmail(rows, u.email).value, FindByUsername(rows, u.username).value;
    var ka :| 0 <= ka < |rows| && rows[ka] == a;
    var kb :| 0 <= kb < |rows| && rows[kb] == b;
    var kc :| 0 <= kc < |rows| && rows[kc] == c;
    assert !(ka < k || k < ka) ==> ka == k;
    assert !(kb < k || k < kb) ==> kb == k;
    assert !(kc < k || k < kc) ==> kc == k;
  }

  /** The `where` of `findAll`: an excluded id (when truthy) and a search
      matched case-insensitively against the name or the username (when truthy). */
  predicate Matches(u: User, excludeUserId: Option<Id>, search: Option<string>) {
    && (Truthy(excludeUserId) ==> u.id != excludeUserId.value)
    && (Truthy(search) ==> ContainsInsensitive(u.name, search.value) || ContainsInsensitive(u.username, search.value))
  }

  function Where(rows: seq<User>, excludeUserId: Option<Id>, search: Option<string>): (r: seq<User>)
    ensures forall u :: u in r <==> u in rows && Matches(u, excludeUserId, search)
    ensures forall u :: multiset(r)[u] == if Matches(u, excludeUserId, search) then multiset(rows)[u] else 0
  {
    if rows == [] then []
    else
      assert rows == [rows[0]] + rows[1..];
      (if Matches(rows[0], excludeUserId, search) then [rows[0]] else [])
      + Where(rows[1..], excludeUserId, search)
  }

  /** `orderBy: { name: "asc" }`, by character code. */
  predicate ByName(a: User, b: User) { StrLe(a.name, b.name) }

  lemma ByNameIsTotalPreorder()
    ensures Sorting.TotalPreorder(ByName)
  {
    forall a: User, b: User ensures ByName(a, b) || ByName(b, a) {
      StrLeTotal(a.name, b.name);
    }
    forall a: User, b: User, c: User | ByName(a, b) && ByName(b, c) ensures ByName(a, c) {
      StrLeTransitive(a.name, b.name, c.name);
    }
  }

  /** `findAll(excludeUserId, search)`: exactly the matching users, sorted by name. */
  function FindAll(rows: seq<User>, excludeUserId: Option<Id>, search: Option<string>): (r: seq<User>)
    ensures forall u :: u in r <==> u in rows && Matches(u, excludeUserId, search)
    ensures forall u :: multiset(r)[u] == if Matches(u, excludeUserId, search) then multiset(rows)[u] else 0
    ensures Sorting.Sorted(r, ByName)
  {
    var w := Where(rows, excludeUserId, search);
    Sorting.SortSameElements(w, ByName);
    ByNameIsTotalPreorder();
    Sorting.SortSorted(w, ByName);
    Sorting.Sort(w, ByName)
  }

  /** The columns `update` may set; absent fields are left alone. */
  datatype UserPatch = UserPatch(
    name: Option<string>,
    username: Option<string>,
    bio: Option<string>,
    phoneNumber: Option<string>,
    initials: Option<string>,
    avatarUrl: Option<string>)

  const EmptyPatch := UserPatch(None, None, None, None, None, None)

  function Apply(u: User, p: UserPatch): User {
    u.(name := p.name.GetOr(u.name),
       username := p.username.GetOr(u.username),
       bio := if p.bio.Some? then p.bio else u.bio,
       phoneNumber := if p.phoneNumber.Some? then p.phoneNumber else u.phoneNumber,
       initials := p.initials.GetOr(u.initials),
       avatarUrl := if p.avatarUrl.Some? then p.avatarUrl else u.avatarUrl)
  }

  /** The user after `updateOnlineStatus(isOnline)` at time `now`: going
      offline stamps `lastActive`, going online leaves it alone. */
  function WithOnlineStatus(u: User, isOnline: bool, now: Time): (r: User)
    ensures r.isOnline == isOnline
    ensures !isOnline ==> r.lastActive == Some(now)
    ensures isOnline ==> r.lastActive == u.lastActive
    ensures r == u.(isOnline := r.isOnline, lastActive := r.lastActive)
  {
    u.(isOnline := isOnline, lastActive := if isOnline then u.lastActive else Some(now))
  }

  /** The table with the row of that id replaced (rows with other ids kept). */
  function Replace(rows: seq<User>, id: Id, u: User): (r: seq<User>)
    ensures |r| == |rows|
    ensures forall k :: 0 <= k < |rows| ==> r[k] == if rows[k].id == id then u else rows[k]
  {
    seq(|rows|, k requires 0 <= k < |rows| => if rows[k].id == id then u else rows[k])
  }

  /** Replacing a row by one with the same id keeps the keys unique when the
      new email and username are not used by any other row. */
  lemma ReplaceKeepsKeys(rows: seq<User>, id: Id, u: User)
    requires KeysUnique(rows) && u.id == id
    requires forall v :: v in rows && v.id != id ==> !Clash(u, v)
    ensures KeysUnique(Replace(rows, id, u))
  {
    var r := Replace(rows, id, u);
    forall i, j | 0 <= i < j < |r| ensures !Clash(r[i], r[j]) {
      assert rows[i] in rows && rows[j] in rows;
    }
  }

  class Users {
    var rows: seq<User>

    ghost predicate Valid()
      reads this
    {
      KeysUnique(rows)
    }

    constructor ()
      ensures Valid() && rows == []
    {
      rows := [];
    }

    /** `create`: stores the row, or fails when its id, email or username is taken. */
    method Create(u: User) returns (r: Result<User, Error>)
      requires Valid()
      modifies this
      ensures Valid()
      ensures (exists v :: v in old(rows) && Clash(u, v)) ==> r == Failure(UniqueViolation) && rows == old(rows)
      ensures (forall v :: v in old(rows) ==> !Clash(u, v)) ==> r == Success(u) && rows == old(rows) + [u]
    {
      var i := 0;
      while i < |rows|
        invariant 0 <= i <= |rows|
        invariant forall k :: 0 <= k < i ==> !Clash(u, rows[k])
      {
        if Clash(u, rows[i]) {
          return Failure(UniqueViolation);
        }
        i := i + 1;
      }
      rows := rows + [u];
      r := Success(u);
    }

    /** `update`: applies the patch to the row with that id; fails when there
        is none or when the new username or email belongs to another row. */
    method Update(id: Id, patch: UserPatch) returns (r: Result<User, Error>)
      requires Valid()
      modifies this
      ensures Valid()
      ensures FindById(old(rows), id).None? ==> r == Failure(RecordNotFound) && rows == old(rows)
      ensures FindById(old(rows), id).Some? ==>
                var u := Apply(FindById(old(rows), id).value, patch);
                if exists v :: v in old(rows) && v.id != id && Clash(u, v)
                then r == Failure(UniqueViolation) && rows == old(rows)
                else r == Success(u) && rows == Replace(old(rows), id, u)
    {
      var found := FindById(rows, id);
      if found.None? {
        return Failure(RecordNotFound);
      }
      var u := Apply(found.value, patch);
      r := Store(id, u);
    }

    /** `updateOnlineStatus`: sets `isOnline`, and `lastActive := now` when going offline. */
    method UpdateOnlineStatus(id: Id, isOnline: bool, now: Time) returns (r: Result<User, Error>)
      requires Valid()
      modifies this
      ensures Valid()
      ensures FindById(old(rows), id).None? ==> r == Failure(RecordNotFound) && rows == old(rows)
      ensures FindById(old(rows), id).Some? ==>
                var u := WithOnlineStatus(FindById(old(rows), id).value, isOnline, now);
                r == Success(u) && rows == Replace(old(rows), id, u)
    {
      var found := FindById(rows, id);
      if found.None? {
        return Failure(RecordNotFound);
      }
      var u := WithOnlineStatus(found.value, isOnline, now);
      forall v | v in rows && v.id != id ensures !Clash(u, v) {
        UniqueLookups(rows, found.value);
        var i :| 0 <= i < |rows| && rows[i] == found.value;
        var j :| 0 <= j < |rows| && rows[j] == v;
        assert i != j;
      }
      r := Store(id, u);
    }

    /** Writes `u` over the row with id `id`, unless `u` clashes with another row. */
    method Store(id: Id, u: User) returns (r: Result<User, Error>)
      requires Valid() && u.id == id
      modifies this
      ensures Valid()
      ensures (exists v :: v in old(rows) && v.id != id && Clash(u, v)) ==> r == Failure(UniqueViolation) && rows == old(rows)
      ensures (forall v :: v in old(rows) && v.id != id ==> !Clash(u, v)) ==> r == Success(u) && rows == Replace(old(rows), id, u)
    {
      var i := 0;
      while i < |rows|
        invariant 0 <= i <= |rows|
        invariant forall k :: 0 <= k < i && rows[k].id != id ==> !Clash(u, rows[k])
      {
        if rows[i].id != id && Clash(u, rows[i]) {
          return Failure(UniqueViolation);
        }
        i := i + 1;
      }
      ReplaceKeepsKeys(rows, id, u);
      rows := Replace(rows, id, u);
      r := Success(u);
    }
  }
}
