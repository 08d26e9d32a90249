/** Sign-in with a Google identity token, the search for a free username,
    and sign-out. The identity provider's verdict, `Math.random()` draws,
    `Date.now()` and the generated row id are parameters; the signed token
    is represented by the claims it carries. */
module AuthService {
  import opened Wrappers
  import opened Entities
  import opened Errors
  import opened Text
  import U = UserRepository
  import Avatar

  /** What the identity provider vouches for; each claim may be missing. */
  datatype GooglePayload = GooglePayload(email: Option<string>, name: Option<string>, picture: Option<string>)

  /** The shaped result of `verifyGoogleToken`. */
  datatype GoogleUser = GoogleUser(email: string, name: string, picture: Option<string>)

  /** The claims of the issued token (`JwtPayload`). */
  datatype JwtPayload = JwtPayload(userId: Id, email: string)

  datatype AuthResponse = AuthResponse(user: User, token: JwtPayload)

  /** `verifyGoogleToken`, given the provider's verdict (`None` when
      verification throws or yields no payload): every failure, including a
      payload without an email, becomes the same unauthorized error; a
      missing name defaults to the email's local part. */
  function VerifyGoogleToken(verified: Option<GooglePayload>): (r: Result<GoogleUser, Error>)
    ensures r.Failure? <==> verified.None? || !Truthy(verified.value.email)
    ensures r.Failure? ==> r.error == UnauthorizedError("Invalid Google token")
    ensures r.Success? ==>
              && r.value.email == verified.value.email.value
              && r.value.picture == verified.value.picture
              && (Truthy(verified.value.name) ==> r.value.name == verified.value.name.value)
              && (!Truthy(verified.value.name) ==> IsPrefix(r.value.name, r.value.email) && forall i :: 0 <= i < |r.value.name| ==> r.value.name[i] != '@')
              && (!Truthy(verified.value.name) ==> r.value.name == BeforeFirst(r.value.email, '@'))
  {
    match verified
    case None => Failure(UnauthorizedError("Invalid Google token"))
    case Some(p) =>
      if !Truthy(p.email) then Failure(UnauthorizedError("Invalid Google token"))
      else
        var email := p.email.value;
        Success(GoogleUser(email, if Truthy(p.name) then p.name.value else BeforeFirst(email, '@'), p.picture))
  }

  const MaxAttempts: nat := 10

  /** The candidate usernames of the ten draws, in order. */
  function Draws(name: string, randoms: seq<real>): (c: seq<string>)
    requires forall k :: 0 <= k < |randoms| ==> 0.0 <= randoms[k] < 1.0
    ensures |c| == |randoms|
    ensures forall k :: 0 <= k < |c| ==> c[k] == Avatar.GenerateUsername(name, randoms[k])
  {
    seq(|randoms|, k requires 0 <= k < |randoms| => Avatar.GenerateUsername(name, randoms[k]))
  }

  /** The username the search settles on, trying the candidates from `i` on. */
  function FirstFree(rows: seq<User>, draws: seq<string>, timestamp: nat, i: nat): string
    decreases |draws| - i
  {
    if i >= |draws| then "user" + Decimal(timestamp)
    else if U.FindByUsername(rows, draws[i]).None? then draws[i]
    else FirstFree(rows, draws, timestamp, i + 1)
  }

  /** The username `generateUniqueUsername` settles on. */
  function UniqueUsername(rows: seq<User>, name: string, randoms: seq<real>, timestamp: nat): string
    requires forall k :: 0 <= k < |randoms| ==> 0.0 <= randoms[k] < 1.0
  {
    FirstFree(rows, Draws(name, randoms), timestamp, 0)
  }

  /** The search settles on the first untaken candidate at or after `i`:
      every earlier candidate is taken, and when all are taken the result
      is the timestamp fallback. The index of the winning candidate is
      returned (`|draws|` for the fallback). */
  lemma {:induction false} UniqueUsernameFree(rows: seq<User>, draws: seq<string>, timestamp: nat, i: nat)
    returns (k: nat)
    requires i <= |draws|
    ensures i <= k <= |draws|
    ensures forall j :: i <= j < k ==> U.FindByUsername(rows, draws[j]).Some?
    ensures k < |draws| ==> var r := FirstFree(rows, draws, timestamp, i);
                            r == draws[k] && U.FindByUsername(rows, r).None?
    ensures k == |draws| ==> FirstFree(rows, draws, timestamp, i) == "user" + Decimal(timestamp)
    decreases |draws| - i
  {
    if i == |draws| {
      k := i;
    } else if U.FindByUsername(rows, draws[i]).None? {
      k := i;
    } else {
      k := UniqueUsernameFree(rows, draws, timestamp, i + 1);
    }
  }

  /** `generateUniqueUsername`: at most ten draws, each looked up once; the
      first untaken candidate wins, else `"user" + timestamp`. */
  method GenerateUniqueUsername(rows: seq<User>, name: string, randoms: seq<real>, timestamp: nat)
    returns (username: string, lookups: nat)
    requires |randoms| == MaxAttempts && forall k :: 0 <= k < |randoms| ==> 0.0 <= randoms[k] < 1.0
    ensures username == UniqueUsername(rows, name, randoms, timestamp)
    ensures 1 <= lookups <= MaxAttempts
    ensures lookups < MaxAttempts ==> U.FindByUsername(rows, username).None?
    ensures username != Avatar.GenerateUsername(name, randoms[lookups - 1]) ==> username == "user" + Decimal(timestamp)
  {
    ghost var draws := Draws(name, randoms);
    lookups := 0;
    for i := 0 to MaxAttempts
      invariant lookups == i
      invariant UniqueUsername(rows, name, randoms, timestamp) == FirstFree(rows, draws, timestamp, i)
    {
      var candidate := Avatar.GenerateUsername(name, randoms[i]);
      lookups := lookups + 1;
      if U.FindByUsername(rows, candidate).None? {
        return candidate, lookups;
      }
    }
    username := "user" + Decimal(timestamp);
  }

  /** The row created for a first sign-in. */
  function NewUser(id: Id, g: GoogleUser, username: string, colorRandom: real): (u: User)
    requires 0.0 <= colorRandom < 1.0
    ensures u.initials == Avatar.GenerateInitials(g.name) && u.avatarUrl == g.picture
    ensures u.email == g.email && u.name == g.name && u.username == username
    ensures u.avatarColor in Avatar.AvatarColors
  {
    User(id, g.email, g.name, username, Avatar.GenerateInitials(g.name), Avatar.GenerateAvatarColor(colorRandom),
         g.picture, None, None, false, None)
  }

  /** `authenticateWithGoogle`: a failed verification is unauthorized and
      nothing changes. An unknown email creates the user (with a searched
      username, initials, a palette colour and the Google picture); a known
      one is marked online and returned as it was read. The token carries
      the returned user's id and email. */
  method AuthenticateWithGoogle(users: U.Users, verified: Option<GooglePayload>, randoms: seq<real>, colorRandom: real,
                                timestamp: nat, newId: Id, now: Time)
    returns (r: Result<AuthResponse, Error>)
    requires users.Valid()
    requires |randoms| == MaxAttempts && forall k :: 0 <= k < |randoms| ==> 0.0 <= randoms[k] < 1.0
    requires 0.0 <= colorRandom < 1.0
    modifies users
    ensures users.Valid()
    ensures r.Success? ==> r.value.token == JwtPayload(r.value.user.id, r.value.user.email)
    ensures VerifyGoogleToken(verified).Failure? ==> r == Failure(VerifyGoogleToken(verified).error) && users.rows == old(users.rows)
    ensures VerifyGoogleToken(verified).Success? ==>
              var g := VerifyGoogleToken(verified).value;
              match U.FindByEmail(old(users.rows), g.email)
              case Some(u) =>
                && r == Success(AuthResponse(u, JwtPayload(u.id, u.email)))
                && users.rows == U.Replace(old(users.rows), u.id, U.WithOnlineStatus(u, true, now))
              case None =>
                var u := NewUser(newId, g, UniqueUsername(old(users.rows), g.name, randoms, timestamp), colorRandom);
                if exists v :: v in old(users.rows) && U.Clash(u, v)
                then r == Failure(UniqueViolation) && users.rows == old(users.rows)
                else r == Success(AuthResponse(u, JwtPayload(u.id, u.email))) && users.rows == old(users.rows) + [u]
  {
    var googleUser := VerifyGoogleToken(verified);
    if googleUser.Failure? {
      return Failure(googleUser.error);
    }
    var g := googleUser.value;
    var existing := U.FindByEmail(users.rows, g.email);
    var user: User;
    if existing.None? {
      var username, _ := GenerateUniqueUsername(users.rows, g.name, randoms, timestamp);
      var created := users.Create(NewUser(newId, g, username, colorRandom));
      if created.Failure? {
        return Failure(created.error);
      }
      user := created.value;
    } else {
      user := existing.value;
      U.UniqueLookups(users.rows, user);
      var _ := users.UpdateOnlineStatus(user.id, true, now);
    }
    r := Success(AuthResponse(user, JwtPayload(user.id, user.email)));
  }

  /** `logout`: the user is marked offline with `lastActive = now`. */
  method Logout(users: U.Users, userId: Id, now: Time) returns (r: Result<(), Error>)
    requires users.Valid()
    modifies users
    ensures users.Valid()
    ensures U.FindById(old(users.rows), userId).None? ==> r == Failure(RecordNotFound) && users.rows == old(users.rows)
    ensures U.FindById(old(users.rows), userId).Some? ==>
              && r == Success(())
              && users.rows == U.Replace(old(users.rows), userId, U.WithOnlineStatus(U.FindById(old(users.rows), userId).value, false, now))
  {
    var updated := users.UpdateOnlineStatus(userId, false, now);
    if updated.Failure? {
      return Failure(updated.error);
    }
    r := Success(());
  }
}
