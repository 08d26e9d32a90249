/** Field rules shared by the request schemas. A schema reads a JSON object;
    an absent key is `undefined` to it, and an optional field accepts only
    that or a value of its own type. UUID and URL syntax are passed in as
    predicates. */
module Schemas {
  import opened Wrappers
  import opened Validate

  /** The value of `key` in an object body; `None` when the key is absent or the body is no object. */
  function Lookup(j: Json, key: string): Option<Json> {
    if j.JObj? && key in j.fields then Some(j.fields[key]) else None
  }

  /** An optional string field: `Some(None)` when absent, `Some(Some(s))`
      for a string `s` that `ok` accepts, `None` (rejected) otherwise. */
  function OptionalString(j: Json, key: string, ok: string -> bool): (r: Option<Option<string>>)
    ensures r == Some(None) <==> Lookup(j, key).None?
    ensures (r.Some? && r.value.Some?) <==>
              (Lookup(j, key).Some? && Lookup(j, key).value.JStr? && ok(Lookup(j, key).value.s))
    ensures r.Some? && r.value.Some? ==> r.value.value == Lookup(j, key).value.s
  {
    match Lookup(j, key)
    case None => Some(None)
    case Some(JStr(s)) => if ok(s) then Some(Some(s)) else None
    case Some(_) => None
  }

  /** A required string field: present, a string, and accepted by `ok`. */
  function RequiredString(j: Json, key: string, ok: string -> bool): (r: Option<string>)
    ensures r.Some? <==> Lookup(j, key).Some? && Lookup(j, key).value.JStr? && ok(Lookup(j, key).value.s)
    ensures r.Some? ==> r.value == Lookup(j, key).value.s
  {
    match Lookup(j, key)
    case Some(JStr(s)) => if ok(s) then Some(s) else None
    case _ => None
  }

  predicate LengthIn(s: string, lo: nat, hi: nat) { lo <= |s| <= hi }
}

/** message.schema.ts: the send-message body, the message id and the delete query. */
module MessageSchema {
  import opened Wrappers
  import opened Entities
  import opened Validate
  import opened Schemas

  datatype SendMessageInput = SendMessageInput(text: Option<string>, imageUrl: Option<string>)

  const EitherTextOrImageUrl := "Either text or imageUrl is required"

  predicate TextOk(s: string) { |s| <= 5000 }

  /** `sendMessageSchema`: an optional text of at most 5000 characters, an
      optional URL, and at least one of the two non-empty. */
  function ParseSendMessage(body: Json, isUrl: string -> bool): (r: Option<SendMessageInput>)
    ensures var text := OptionalString(body, "text", TextOk);
            var imageUrl := OptionalString(body, "imageUrl", isUrl);
            && (r.Some? <==> body.JObj? && text.Some? && imageUrl.Some? && (Truthy(text.value) || Truthy(imageUrl.value)))
            && (r.Some? ==> r.value == SendMessageInput(text.value, imageUrl.value))
    ensures r.Some? ==> Truthy(r.value.text) || Truthy(r.value.imageUrl)
    ensures r.Some? && r.value.text.Some? ==> |r.value.text.value| <= 5000
  {
    var text := OptionalString(body, "text", TextOk);
    var imageUrl := OptionalString(body, "imageUrl", isUrl);
    if body.JObj? && text.Some? && imageUrl.Some? && (Truthy(text.value) || Truthy(imageUrl.value))
    then Some(SendMessageInput(text.value, imageUrl.value))
    else None
  }

  /** A body whose only text is empty and that has no image is refused, and
      the refinement's one issue is filed under the empty path. */
  lemma EmptyMessageRefused(isUrl: string -> bool)
    ensures ParseSendMessage(JObj(map["text" := JStr("")]), isUrl).None?
    ensures Grouped([Issue([], EitherTextOrImageUrl)]) == map["" := [EitherTextOrImageUrl]]
  {
    var body := JObj(map["text" := JStr("")]);
    assert Lookup(body, "imageUrl").None?;
    assert Lookup(body, "text") == Some(JStr(""));
    assert !Truthy(OptionalString(body, "text", TextOk).value);
    var issues := [Issue([], EitherTextOrImageUrl)];
    assert Key(issues[0]) == "";
    assert issues[..0] == [];
    assert Grouped(issues) == Append(Grouped([]), "", EitherTextOrImageUrl);
    var empty: map<string, seq<string>> := map[];
    assert "" !in empty;
    assert [] + [EitherTextOrImageUrl] == [EitherTextOrImageUrl];
    assert Append(empty, "", EitherTextOrImageUrl) == map["" := [EitherTextOrImageUrl]];
  }

  /** `messageIdParamSchema`: `id` is a UUID. */
  function ParseMessageId(params: Json, isUuid: string -> bool): (r: Option<Id>)
    ensures r.Some? <==> params.JObj? && RequiredString(params, "id", isUuid).Some?
    ensures r.Some? ==> isUuid(r.value) && Lookup(params, "id") == Some(JStr(r.value))
  {
    if params.JObj? then RequiredString(params, "id", isUuid) else None
  }

  /** `deleteMessageQuerySchema`: `for` is exactly "self" or "everyone". */
  function ParseDeleteQuery(query: Json): (r: Option<DeletedFor>)
    ensures r == Some(ForSelf) <==> query.JObj? && Lookup(query, "for") == Some(JStr("self"))
    ensures r == Some(ForEveryone) <==> query.JObj? && Lookup(query, "for") == Some(JStr("everyone"))
  {
    if !query.JObj? then None
    else match Lookup(query, "for")
      case Some(JStr(s)) => if s == "self" then Some(ForSelf) else if s == "everyone" then Some(ForEveryone) else None
      case _ => None
  }
}

/** conversation.schema.ts: the create body, the id param, the page query and the mute body. */
module ConversationSchema {
  import opened Wrappers
  import opened Entities
  import opened Text
  import opened Validate
  import opened Schemas

  /** `createConversationSchema`: `userId` is a UUID. */
  function ParseCreateConversation(body: Json, isUuid: string -> bool): (r: Option<Id>)
    ensures r.Some? <==> body.JObj? && RequiredString(body, "userId", isUuid).Some?
    ensures r.Some? ==> isUuid(r.value) && Lookup(body, "userId") == Some(JStr(r.value))
  {
    if body.JObj? then RequiredString(body, "userId", isUuid) else None
  }

  /** `conversationIdParamSchema`: `id` is a UUID. */
  function ParseConversationId(params: Json, isUuid: string -> bool): (r: Option<Id>)
    ensures r.Some? <==> params.JObj? && RequiredString(params, "id", isUuid).Some?
    ensures r.Some? ==> isUuid(r.value) && Lookup(params, "id") == Some(JStr(r.value))
  {
    if params.JObj? then RequiredString(params, "id", isUuid) else None
  }

  const DefaultLimit := 50
  const MaxLimit := 100

  datatype ConversationQuery = ConversationQuery(limit: int, cursor: Option<Id>)

  /** `z.coerce.number()` on the integer spellings the model covers: a number
      stays, an empty string is 0, a string of digits is its value; anything
      else is not a number here and is refused. */
  function CoerceNumber(v: Json): Option<int> {
    match v
    case JNum(n) => Some(n)
    case JStr(s) =>
      if forall i :: 0 <= i < |s| ==> IsDigit(s[i]) then Some(DigitsValue(s)) else None
    case _ => None
  }

  /** `conversationQuerySchema`: `limit` defaults to 50 when absent and must
      otherwise coerce to a number in 1..100; `cursor` is an optional UUID. */
  function ParseConversationQuery(query: Json, isUuid: string -> bool): (r: Option<ConversationQuery>)
    ensures r.Some? ==> 1 <= r.value.limit <= MaxLimit
    ensures r.Some? && Lookup(query, "limit").None? ==> r.value.limit == DefaultLimit
    ensures r.Some? && r.value.cursor.Some? ==> isUuid(r.value.cursor.value)
    ensures r.Some? ==> (r.value.cursor.None? <==> Lookup(query, "cursor").None?)
    ensures r.Some? && r.value.cursor.Some? ==> Lookup(query, "cursor") == Some(JStr(r.value.cursor.value))
    ensures r.Some? && Lookup(query, "limit").Some? ==> CoerceNumber(Lookup(query, "limit").value) == Some(r.value.limit)
    ensures r.Some? <==> query.JObj? && OptionalString(query, "cursor", isUuid).Some?
                         && (Lookup(query, "limit").None? ||
                             (var n := CoerceNumber(Lookup(query, "limit").value); n.Some? && 1 <= n.value <= MaxLimit))
  {
    var cursor := OptionalString(query, "cursor", isUuid);
    var limit := match Lookup(query, "limit")
                 case None => Some(DefaultLimit)
                 case Some(v) => CoerceNumber(v);
    if query.JObj? && cursor.Some? && limit.Some? && 1 <= limit.value <= MaxLimit
    then Some(ConversationQuery(limit.value, cursor.value))
    else None
  }

  /** A query string `limit=<n>` is taken as `n` exactly when 1 <= n <= 100. */
  lemma LimitRoundTrip(n: nat, isUuid: string -> bool)
    ensures var r := ParseConversationQuery(JObj(map["limit" := JStr(Decimal(n))]), isUuid);
            (r.Some? <==> 1 <= n <= MaxLimit) && (r.Some? ==> r.value == ConversationQuery(n, None))
  {
    DigitsValueOfDecimal(n);
    assert Lookup(JObj(map["limit" := JStr(Decimal(n))]), "cursor").None?;
  }

  /** `muteConversationSchema`: `isMuted` is a required boolean. */
  function ParseMute(body: Json): (r: Option<bool>)
    ensures r.Some? <==> body.JObj? && Lookup(body, "isMuted").Some? && Lookup(body, "isMuted").value.JBool?
    ensures r.Some? ==> Lookup(body, "isMuted") == Some(JBool(r.value))
  {
    match Lookup(body, "isMuted")
    case Some(JBool(b)) => Some(b)
    case _ => None
  }
}

/** user.schema.ts, and the one-field Google sign-in body of auth.schema.ts. */
module UserSchema {
  import opened Wrappers
  import opened Entities
  import opened Text
  import opened Validate
  import opened Schemas
  import UserService
  import Avatar

  /** `^[a-zA-Z0-9_]+$` with a length of 3..50. */
  predicate UsernameOk(s: string) {
    LengthIn(s, 3, 50) && forall i :: 0 <= i < |s| ==> IsWordChar(s[i])
  }

  predicate NameOk(s: string) { LengthIn(s, 1, 100) }
  predicate BioOk(s: string) { |s| <= 500 }
  predicate PhoneOk(s: string) { |s| <= 20 }

  /** `updateProfileSchema`: every field optional; a name of 1..100
      characters, a username per `UsernameOk`, a bio of at most 500 and a
      phone number of at most 20 characters. */
  function ParseUpdateProfile(body: Json): (r: Option<UserService.ProfileInput>)
    ensures var name := OptionalString(body, "name", NameOk);
            var username := OptionalString(body, "username", UsernameOk);
            var bio := OptionalString(body, "bio", BioOk);
            var phone := OptionalString(body, "phoneNumber", PhoneOk);
            && (r.Some? <==> body.JObj? && name.Some? && username.Some? && bio.Some? && phone.Some?)
            && (r.Some? ==> r.value == UserService.ProfileInput(name.value, username.value, bio.value, phone.value))
    ensures r.Some? ==> && (r.value.name.Some? ==> LengthIn(r.value.name.value, 1, 100))
                        && (r.value.username.Some? ==> UsernameOk(r.value.username.value))
                        && (r.value.bio.Some? ==> |r.value.bio.value| <= 500)
                        && (r.value.phoneNumber.Some? ==> |r.value.phoneNumber.value| <= 20)
    ensures r.Some? ==> && (r.value.name.None? <==> Lookup(body, "name").None?)
                        && (r.value.username.None? <==> Lookup(body, "username").None?)
                        && (r.value.bio.None? <==> Lookup(body, "bio").None?)
                        && (r.value.phoneNumber.None? <==> Lookup(body, "phoneNumber").None?)
    ensures body == JObj(map[]) ==> r == Some(UserService.ProfileInput(None, None, None, None))
  {
    var name := OptionalString(body, "name", NameOk);
    var username := OptionalString(body, "username", UsernameOk);
    var bio := OptionalString(body, "bio", BioOk);
    var phone := OptionalString(body, "phoneNumber", PhoneOk);
    if body.JObj? && name.Some? && username.Some? && bio.Some? && phone.Some?
    then Some(UserService.ProfileInput(name.value, username.value, bio.value, phone.value))
    else None
  }

  /** A username generated at sign-up need not satisfy the profile rule: a
      user named "" may get "0", which they could not submit back. */
  lemma GeneratedUsernameMayFailProfileRule()
    ensures Avatar.GenerateUsername("", 0.0) == "0"
    ensures !UsernameOk(Avatar.GenerateUsername("", 0.0))
  {
    assert Avatar.UsernameBase("") == "";
  }

  /** `userIdParamSchema`: `id` is a UUID. */
  function ParseUserId(params: Json, isUuid: string -> bool): (r: Option<Id>)
    ensures r.Some? <==> params.JObj? && RequiredString(params, "id", isUuid).Some?
    ensures r.Some? ==> isUuid(r.value) && Lookup(params, "id") == Some(JStr(r.value))
  {
    if params.JObj? then RequiredString(params, "id", isUuid) else None
  }

  /** `searchQuerySchema`: `search` is an optional string. */
  function ParseSearch(query: Json): (r: Option<Option<string>>)
    ensures r.Some? <==> query.JObj? && (Lookup(query, "search").None? || Lookup(query, "search").value.JStr?)
    ensures r == Some(None) <==> query.JObj? && Lookup(query, "search").None?
    ensures r.Some? && r.value.Some? ==> Lookup(query, "search") == Some(JStr(r.value.value))
  {
    if query.JObj? then OptionalString(query, "search", _ => true) else None
  }

  /** `googleAuthSchema`: `idToken` is a non-empty string. */
  function ParseGoogleAuth(body: Json): (r: Option<string>)
    ensures r.Some? <==> body.JObj? && Lookup(body, "idToken").Some? && Lookup(body, "idToken").value.JStr?
                         && Lookup(body, "idToken").value.s != ""
    ensures r.Some? ==> r.value != "" && Lookup(body, "idToken") == Some(JStr(r.value))
  {
    if body.JObj? then RequiredString(body, "idToken", s => |s| >= 1) else None
  }
}
