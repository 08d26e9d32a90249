/** The profile operations: reading a user, editing the profile, replacing
    the avatar image and recording presence. The image host is outside the
    model: an upload is given as its outcome, and the id of an image the
    operation asks the host to delete is returned. */
module UserService {
  import opened Wrappers
  import opened Entities
  import opened Errors
  import opened Text
  import Sorting
  import U = UserRepository
  import Avatar

  /** `getUserById`: the user, or not found. */
  function GetUserById(rows: seq<User>, id: Id): (r: Result<User, Error>)
    ensures r.Success? <==> exists u :: u in rows && u.id == id
    ensures r.Success? ==> r.value in rows && r.value.id == id
    ensures r.Failure? ==> r.error == NotFoundError("User not found")
  {
    match U.FindById(rows, id)
    case None => Failure(NotFoundError("User not found"))
    case Some(u) => Success(u)
  }

  /** `getAllUsers`: the directory search, sorted by name. */
  function GetAllUsers(rows: seq<User>, excludeUserId: Option<Id>, search: Option<string>): (r: seq<User>)
    ensures forall u :: u in r <==> u in rows && U.Matches(u, excludeUserId, search)
    ensures forall u :: multiset(r)[u] == if U.Matches(u, excludeUserId, search) then multiset(rows)[u] else 0
    ensures Sorting.Sorted(r, U.ByName)
  {
    U.FindAll(rows, excludeUserId, search)
  }

  /** The validated body of a profile update; absent fields stay as they are. */
  datatype ProfileInput = ProfileInput(name: Option<string>, username: Option<string>, bio: Option<string>, phoneNumber: Option<string>)

  /** The columns `updateProfile` writes: the supplied fields as given, and
      fresh initials when a (non-empty) name is supplied. */
  function ProfilePatch(data: ProfileInput): U.UserPatch {
    U.UserPatch(data.name, data.username, data.bio, data.phoneNumber,
                if Truthy(data.name) then Some(Avatar.GenerateInitials(data.name.value)) else None,
                None)
  }

  /** The user after a profile update: the supplied fields replaced, the
      initials recomputed exactly when a name is supplied, everything else
      (id, email, avatar, presence) as before. */
  lemma ProfilePatchEffect(u: User, data: ProfileInput)
    ensures var v := U.Apply(u, ProfilePatch(data));
            && v.name == data.name.GetOr(u.name)
            && v.username == data.username.GetOr(u.username)
            && v.bio == (if data.bio.Some? then data.bio else u.bio)
            && v.phoneNumber == (if data.phoneNumber.Some? then data.phoneNumber else u.phoneNumber)
            && v.initials == (if Truthy(data.name) then Avatar.GenerateInitials(data.name.value) else u.initials)
            && v == u.(name := v.name, username := v.username, bio := v.bio, phoneNumber := v.phoneNumber, initials := v.initials)
  {
  }

  /** Whether a requested username belongs to someone other than the caller. */
  predicate UsernameTakenByOther(rows: seq<User>, userId: Id, username: Option<string>) {
    Truthy(username) && U.FindByUsername(rows, username.value).Some? && U.FindByUsername(rows, username.value).value.id != userId
  }

  /** `updateProfile`: a username held by another user is a conflict and
      nothing changes; otherwise the profile patch is written (the caller
      keeping their own username is no conflict). */
  method UpdateProfile(users: U.Users, userId: Id, data: ProfileInput) returns (r: Result<User, Error>)
    requires users.Valid()
    modifies users
    ensures users.Valid()
    ensures UsernameTakenByOther(old(users.rows), userId, data.username) ==>
              r == Failure(ConflictError("Username already taken")) && users.rows == old(users.rows)
    ensures !UsernameTakenByOther(old(users.rows), userId, data.username) && U.FindById(old(users.rows), userId).None? ==>
              r == Failure(RecordNotFound) && users.rows == old(users.rows)
    ensures !UsernameTakenByOther(old(users.rows), userId, data.username) && U.FindById(old(users.rows), userId).Some? ==>
              var v := U.Apply(U.FindById(old(users.rows), userId).value, ProfilePatch(data));
              if exists w :: w in old(users.rows) && w.id != userId && U.Clash(v, w)
              then r == Failure(UniqueViolation) && users.rows == old(users.rows)
              else r == Success(v) && users.rows == U.Replace(old(users.rows), userId, v)
  {
    if Truthy(data.username) {
      var existing := U.FindByUsername(users.rows, data.username.value);
      if existing.Some? && existing.value.id != userId {
        return Failure(ConflictError("Username already taken"));
      }
    }
    r := users.Update(userId, ProfilePatch(data));
  }

  /** A row that keeps its id, email and username cannot clash with another row. */
  lemma KeysKeptNoClash(rows: seq<User>, id: Id, v: User)
    requires U.KeysUnique(rows) && U.FindById(rows, id).Some?
    requires var u := U.FindById(rows, id).value; v.id == u.id && v.email == u.email && v.username == u.username
    ensures forall w :: w in rows && w.id != id ==> !U.Clash(v, w)
  {
    var u := U.FindById(rows, id).value;
    forall w | w in rows && w.id != id ensures !U.Clash(v, w) {
      var i :| 0 <= i < |rows| && rows[i] == u;
      var j :| 0 <= j < |rows| && rows[j] == w;
      assert i != j;
    }
  }

  /** The last `.` of `s`. */
  function LastDot(s: string): (r: Option<nat>)
    ensures r.Some? ==> r.value < |s| && s[r.value] == '.' && forall q :: r.value < q < |s| ==> s[q] != '.'
    ensures r.None? ==> forall q :: 0 <= q < |s| ==> s[q] != '.'
  {
    if s == [] then None
    else if s[|s| - 1] == '.' then Some(|s| - 1)
    else LastDot(s[..|s| - 1])
  }

  /** The length of the run of digits starting at `j`. */
  function DigitRun(s: string, j: nat): (d: nat)
    ensures j + d <= |s| || (j >= |s| && d == 0)
    ensures forall q :: j <= q < j + d ==> IsDigit(s[q])
    ensures j + d < |s| ==> !IsDigit(s[j + d])
    decreases |s| - j
  {
    if j < |s| && IsDigit(s[j]) then 1 + DigitRun(s, j + 1) else 0
  }

  predicate NoLineTerminators(s: string) { forall i :: 0 <= i < |s| ==> !IsLineTerminator(s[i]) }
  predicate AllWordChars(s: string) { forall i :: 0 <= i < |s| ==> IsWordChar(s[i]) }

  /** The capture of `/\/v\d+\/(.+)\.\w+$/` for a match starting at `i`:
      "/v", the whole digit run, "/", then the longest capture that leaves a
      final "." followed only by word characters, without line terminators. */
  function MatchAt(url: string, i: nat): (r: Option<string>)
    ensures r.Some? ==> r.value != [] && NoLineTerminators(r.value)
  {
    if i + 2 <= |url| && url[i] == '/' && url[i + 1] == 'v' then
      var d := DigitRun(url, i + 2);
      var slash := i + 2 + d;
      if d >= 1 && slash < |url| && url[slash] == '/' then
        var start := slash + 1;
        match LastDot(url)
        case Some(p) =>
          if start < p && p + 1 < |url| && AllWordChars(url[p + 1..]) && NoLineTerminators(url[start..p])
          then Some(url[start..p]) else None
        case None => None
      else None
    else None
  }

  /** The capture of the first position from `i` on where the pattern matches. */
  function SearchFrom(url: string, i: nat): (r: Option<string>)
    decreases |url| - i
  {
    if i > |url| then None
    else if MatchAt(url, i).Some? then MatchAt(url, i)
    else SearchFrom(url, i + 1)
  }

  /** The search result is the match at the first matching position, and
      there is none only when no position matches. */
  lemma SearchFromMeaning(url: string, i: nat)
    ensures var r := SearchFrom(url, i);
            && (r.Some? ==> exists j :: i <= j <= |url| && MatchAt(url, j) == r && forall q :: i <= q < j ==> MatchAt(url, q).None?)
            && (r.None? ==> forall j :: i <= j <= |url| ==> MatchAt(url, j).None?)
  {
    if SearchFrom(url, i).Some? {
      var j := FirstMatch(url, i);
    } else {
      NoMatch(url, i);
    }
  }

  /** Where a successful search found its match. */
  lemma {:induction false} FirstMatch(url: string, i: nat) returns (j: nat)
    requires SearchFrom(url, i).Some?
    ensures i <= j <= |url| && MatchAt(url, j) == SearchFrom(url, i)
    ensures forall q :: i <= q < j ==> MatchAt(url, q).None?
    decreases |url| - i
  {
    if MatchAt(url, i).Some? {
      j := i;
    } else {
      j := FirstMatch(url, i + 1);
    }
  }

  lemma {:induction false} NoMatch(url: string, i: nat)
    requires SearchFrom(url, i).None?
    ensures forall j :: i <= j <= |url| ==> MatchAt(url, j).None?
    decreases |url| - i
  {
    if i <= |url| {
      NoMatch(url, i + 1);
    }
  }

  /** `extractPublicId`: the capture of the leftmost match, or null when
      no position matches. */
  function ExtractPublicId(url: string): (r: Option<string>)
    ensures r.Some? ==> r.value != [] && exists j :: 0 <= j <= |url| && MatchAt(url, j) == r
                                           && forall q :: 0 <= q < j ==> MatchAt(url, q).None?
    ensures r.None? ==> forall j :: 0 <= j <= |url| ==> MatchAt(url, j).None?
  {
    SearchFromMeaning(url, 0);
    SearchFrom(url, 0)
  }

  /** A delivery URL of the image host, `<base>/v<version>/<public id>.<ext>`
      with no "/v" in the base, yields its public id. */
  lemma ExtractsHostedId(base: string, version: nat, id: string, ext: string)
    requires forall i :: 0 <= i < |base| - 1 ==> !(base[i] == '/' && base[i + 1] == 'v')
    requires id != [] && NoLineTerminators(id)
    requires ext != [] && AllWordChars(ext)
    ensures ExtractPublicId(base + "/v" + Decimal(version) + "/" + id + "." + ext) == Some(id)
  {
    var url := base + "/v" + Decimal(version) + "/" + id + "." + ext;
    HostedMatch(url, base, Decimal(version), id, ext);
    forall q | 0 <= q < |base| ensures MatchAt(url, q).None? {
      if q < |base| - 1 {
        assert url[q] == base[q] && url[q + 1] == base[q + 1];
      } else {
        assert url[q + 1] == '/';
      }
    }
    Leftmost(url, |base|);
  }

  /** The match at the end of the base captures the public id. */
  lemma HostedMatch(url: string, base: string, digits: string, id: string, ext: string)
    requires url == base + "/v" + digits + "/" + id + "." + ext
    requires digits != [] && forall q :: 0 <= q < |digits| ==> IsDigit(digits[q])
    requires id != [] && NoLineTerminators(id)
    requires ext != [] && AllWordChars(ext)
    ensures MatchAt(url, |base|) == Some(id)
  {
    var at, n := |base|, |digits|;
    var start := at + 3 + n;
    var p := start + |id|;
    var head := base + "/v" + digits + "/" + id;
    assert url == head + "." + ext;
    assert |head| == p;
    forall q | at + 2 <= q < at + 2 + n ensures IsDigit(url[q]) {
      assert url[q] == digits[q - at - 2];
    }
    assert url[at] == '/' && url[at + 1] == 'v' && url[at + 2 + n] == '/';
    DigitRunOf(url, at + 2, n);
    LastDotSuffix(head, ext);
    assert url[start..p] == id;
    assert url[p + 1..] == ext;
    MatchAtParts(url, at, n, p);
  }

  /** The parts a match at `at` is made of, with the dot at `p`. */
  lemma MatchAtParts(url: string, at: nat, d: nat, p: nat)
    requires at + 2 <= |url| && url[at] == '/' && url[at + 1] == 'v'
    requires d >= 1 && DigitRun(url, at + 2) == d && at + 2 + d < |url| && url[at + 2 + d] == '/'
    requires LastDot(url) == Some(p) && at + 3 + d < p && p + 1 < |url|
    requires AllWordChars(url[p + 1..]) && NoLineTerminators(url[at + 3 + d..p])
    ensures MatchAt(url, at) == Some(url[at + 3 + d..p])
  {
  }

  /** The last dot of `head + "." + ext`, when `ext` has none, is the one after `head`. */
  lemma {:induction false} LastDotSuffix(head: string, ext: string)
    requires AllWordChars(ext)
    ensures LastDot(head + "." + ext) == Some(|head|)
    decreases |ext|
  {
    var u := head + "." + ext;
    if ext == [] {
      assert u[|u| - 1] == '.';
    } else {
      assert IsWordChar(ext[|ext| - 1]);
      assert u[|u| - 1] == ext[|ext| - 1];
      assert u[..|u| - 1] == head + "." + ext[..|ext| - 1];
      LastDotSuffix(head, ext[..|ext| - 1]);
    }
  }

  /** The leftmost matching position decides the result. */
  lemma Leftmost(url: string, at: nat)
    requires at <= |url| && MatchAt(url, at).Some?
    requires forall q :: 0 <= q < at ==> MatchAt(url, q).None?
    ensures ExtractPublicId(url) == MatchAt(url, at)
  {
    var r := ExtractPublicId(url);
    var j :| 0 <= j <= |url| && MatchAt(url, j) == r && forall q :: 0 <= q < j ==> MatchAt(url, q).None?;
    assert !(j < at) && !(at < j);
  }

  /** A run of `n` digits closed by "/" at `j` is the digit run there. */
  lemma {:induction false} DigitRunOf(url: string, j: nat, n: nat)
    requires j + n < |url| && url[j + n] == '/'
    requires forall q :: j <= q < j + n ==> IsDigit(url[q])
    ensures DigitRun(url, j) == n
    decreases n
  {
    if n > 0 {
      DigitRunOf(url, j + 1, n - 1);
    }
  }

  /** The image `updateAvatar` asks the host to delete: the public id of the
      old avatar, only when its URL mentions "cloudinary". */
  function ImageToDelete(avatarUrl: Option<string>): (r: Option<string>)
    ensures r.Some? ==> Truthy(avatarUrl) && Contains(avatarUrl.value, "cloudinary") && r == ExtractPublicId(avatarUrl.value)
    ensures r.None? ==> !Truthy(avatarUrl) || !Contains(avatarUrl.value, "cloudinary") || ExtractPublicId(avatarUrl.value).None?
  {
    if Truthy(avatarUrl) && Contains(avatarUrl.value, "cloudinary") then ExtractPublicId(avatarUrl.value) else None
  }

  /** `updateAvatar`: an unknown user is not found; otherwise the old hosted
      image is named for deletion, the upload's outcome is awaited (a failed
      upload propagates, after the deletion) and the new URL is stored and
      returned. */
  method UpdateAvatar(users: U.Users, userId: Id, upload: Result<string, Error>)
    returns (r: Result<string, Error>, deleted: Option<string>)
    requires users.Valid()
    modifies users
    ensures users.Valid()
    ensures U.FindById(old(users.rows), userId).None? ==>
              r == Failure(NotFoundError("User not found")) && deleted.None? && users.rows == old(users.rows)
    ensures U.FindById(old(users.rows), userId).Some? ==>
              var u := U.FindById(old(users.rows), userId).value;
              && deleted == ImageToDelete(u.avatarUrl)
              && (upload.Failure? ==> r == upload && users.rows == old(users.rows))
              && (upload.Success? ==>
                    && r == Success(upload.value)
                    && users.rows == U.Replace(old(users.rows), userId, u.(avatarUrl := Some(upload.value))))
  {
    deleted := None;
    var found := U.FindById(users.rows, userId);
    if found.None? {
      return Failure(NotFoundError("User not found")), None;
    }
    var u := found.value;
    deleted := ImageToDelete(u.avatarUrl);
    if upload.Failure? {
      return upload, deleted;
    }
    var url := upload.value;
    var patch := U.EmptyPatch.(avatarUrl := Some(url));
    KeysKeptNoClash(users.rows, userId, U.Apply(u, patch));
    var updated := users.Update(userId, patch);
    r := Success(url);
  }

  /** `setOnlineStatus`: `updateOnlineStatus` unchanged. */
  method SetOnlineStatus(users: U.Users, userId: Id, isOnline: bool, now: Time) returns (r: Result<User, Error>)
    requires users.Valid()
    modifies users
    ensures users.Valid()
    ensures U.FindById(old(users.rows), userId).None? ==> r == Failure(RecordNotFound) && users.rows == old(users.rows)
    ensures U.FindById(old(users.rows), userId).Some? ==>
              var u := U.WithOnlineStatus(U.FindById(old(users.rows), userId).value, isOnline, now);
              r == Success(u) && users.rows == U.Replace(old(users.rows), userId, u)
  {
    r := users.UpdateOnlineStatus(userId, isOnline, now);
  }
}
