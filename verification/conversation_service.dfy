/** The conversation operations: opening one conversation, listing the
    caller's conversations for the sidebar, starting a direct conversation
    and muting. */
module ConversationService {
  import opened Wrappers
  import opened Entities
  import opened Errors
  import PR = ParticipantRepository
  import U = UserRepository
  import CR = ConversationRepository

  /** Whether the joined member list names the user. */
  predicate HasMember(members: seq<CR.Member>, userId: Id) {
    exists m :: m in members && m.participant.userId == userId
  }

  /** `getConversationById`: unknown id → not found; a caller who is not
      among the members → forbidden; otherwise the conversation with its members. */
  function GetConversationById(rows: seq<Conversation>, parts: seq<Participant>, users: seq<User>, id: Id, userId: Id)
    : (r: Result<CR.ConversationDetails, Error>)
    ensures CR.FindById(rows, id).None? <==> r == Failure(NotFoundError("Conversation not found"))
    ensures r == Failure(ForbiddenError(NotParticipant)) <==>
              CR.FindById(rows, id).Some? && !HasMember(CR.MembersOf(parts, users, id), userId)
    ensures r.Success? ==> r.value.conversation.id == id && r.value.conversation in rows
                           && HasMember(r.value.participants, userId)
  {
    match CR.FindByIdWithMembers(rows, parts, users, id)
    case None => Failure(NotFoundError("Conversation not found"))
    case Some(d) =>
      if HasMember(d.participants, userId) then Success(d) else Failure(ForbiddenError(NotParticipant))
  }

  /** The caller may open exactly the conversations they have a row in
      (each participant row has its user, as the foreign key guarantees). */
  lemma OpenIffParticipant(rows: seq<Conversation>, parts: seq<Participant>, users: seq<User>, id: Id, userId: Id)
    requires forall p :: p in parts ==> U.FindById(users, p.userId).Some?
    requires CR.FindById(rows, id).Some?
    ensures GetConversationById(rows, parts, users, id, userId).Success? <==> PR.IsParticipant(parts, userId, id)
  {
    var members := CR.MembersOf(parts, users, id);
    if PR.IsParticipant(parts, userId, id) {
      var p := PR.FindByUserAndConversation(parts, userId, id).value;
      CR.MemberPresent(parts, users, id, p);
    }
    if HasMember(members, userId) {
      var m :| m in members && m.participant.userId == userId;
      assert PR.HasKey(m.participant, userId, id);
    }
  }

  /** The preview of the newest message in a list item. */
  datatype Preview = Preview(text: Option<string>, imageUrl: Option<string>, createdAt: Time, senderId: Id)

  /** `ConversationListItem`. */
  datatype ListItem = ListItem(
    id: Id,
    kind: ConversationType,
    name: Option<string>,
    icon: Option<string>,
    iconBg: Option<string>,
    otherUser: Option<UserPublic>,
    lastMessage: Option<Preview>,
    unreadCount: nat,
    updatedAt: Time)

  /** The first member satisfying `keep`, as `Array.prototype.find`. */
  function FindMember(members: seq<CR.Member>, keep: CR.Member -> bool): (r: Option<CR.Member>)
    ensures r.Some? ==> r.value in members && keep(r.value)
    ensures r.None? ==> forall m :: m in members ==> !keep(m)
  {
    if members == [] then None
    else if keep(members[0]) then Some(members[0])
    else FindMember(members[1..], keep)
  }

  /** One list entry: the name only for groups, the other member only for
      direct conversations, a preview of the newest message, and the
      caller's unread counter (0 without a row). */
  function ToListItem(s: CR.ConversationSummary, userId: Id): (r: ListItem)
    ensures r.id == s.conversation.id && r.kind == s.conversation.kind && r.updatedAt == s.conversation.updatedAt
    ensures r.name.Some? ==> s.conversation.kind == Group
    ensures s.conversation.kind == Group ==> r.name == s.conversation.name
    ensures r.otherUser.Some? <==>
              s.conversation.kind == Direct && exists m :: m in s.participants && m.participant.userId != userId
    ensures r.otherUser.Some? ==>
              exists m :: m in s.participants && m.participant.userId != userId && r.otherUser.value == PublicOf(m.user)
    ensures r.lastMessage.Some? <==> s.messages != []
    ensures r.lastMessage.Some? ==>
              r.lastMessage.value == Preview(s.messages[0].text, s.messages[0].imageUrl, s.messages[0].createdAt, s.messages[0].senderId)
    ensures !HasMember(s.participants, userId) ==> r.unreadCount == 0
  {
    var mine := FindMember(s.participants, (m: CR.Member) => m.participant.userId == userId);
    var other := FindMember(s.participants, (m: CR.Member) => m.participant.userId != userId);
    var c := s.conversation;
    ListItem(
      c.id, c.kind,
      if c.kind == Group then c.name else None,
      c.icon, c.iconBg,
      if c.kind == Direct && other.Some? then Some(PublicOf(other.value.user)) else None,
      if s.messages != [] then
        Some(Preview(s.messages[0].text, s.messages[0].imageUrl, s.messages[0].createdAt, s.messages[0].senderId))
      else None,
      if mine.Some? then mine.value.participant.unreadCount else 0,
      c.updatedAt)
  }

  /** The list items of the summaries, position by position. */
  function ListItems(convs: seq<CR.ConversationSummary>, userId: Id): (r: seq<ListItem>)
    ensures |r| == |convs|
    ensures forall k :: 0 <= k < |r| ==> r[k].id == convs[k].conversation.id && r[k].updatedAt == convs[k].conversation.updatedAt
    ensures forall k :: 0 <= k < |r| ==> r[k] == ToListItem(convs[k], userId)
  {
    seq(|convs|, k requires 0 <= k < |convs| => ToListItem(convs[k], userId))
  }

  /** `getUserConversations`: the caller's conversations as list items, most
      recently updated first. */
  function GetUserConversations(rows: seq<Conversation>, parts: seq<Participant>, users: seq<User>, msgs: seq<Message>, userId: Id)
    : (r: seq<ListItem>)
    ensures forall i, j :: 0 <= i < j < |r| ==> r[i].updatedAt >= r[j].updatedAt
  {
    var convs := CR.FindUserConversations(rows, parts, users, msgs, userId);
    var r := ListItems(convs, userId);
    ItemsOrdered(convs, r);
    r
  }

  /** The conversation list holds an item for every conversation of the
      caller and for no other. */
  lemma UserConversationsListed(rows: seq<Conversation>, parts: seq<Participant>, users: seq<User>, msgs: seq<Message>, userId: Id)
    ensures var r := GetUserConversations(rows, parts, users, msgs, userId);
            && (forall c :: c in rows && PR.IsParticipant(parts, userId, c.id) ==> exists item :: item in r && item.id == c.id)
            && (forall item :: item in r ==> exists c :: c in rows && PR.IsParticipant(parts, userId, c.id) && item.id == c.id)
  {
    var convs := CR.FindUserConversations(rows, parts, users, msgs, userId);
    var r := ListItems(convs, userId);
    assert r == GetUserConversations(rows, parts, users, msgs, userId);
    ItemsCover(rows, parts, userId, convs, r);
  }

  /** With unique conversation ids the list names each conversation once. */
  lemma UserConversationsOnce(rows: seq<Conversation>, parts: seq<Participant>, users: seq<User>, msgs: seq<Message>, userId: Id)
    requires CR.IdsUnique(rows)
    ensures var r := GetUserConversations(rows, parts, users, msgs, userId);
            forall i, j :: 0 <= i < j < |r| ==> r[i].id != r[j].id
  {
    var convs := CR.FindUserConversations(rows, parts, users, msgs, userId);
    var r := ListItems(convs, userId);
    assert r == GetUserConversations(rows, parts, users, msgs, userId);
    CR.UserConversationsOnce(rows, parts, users, msgs, userId);
  }

  /** Items that follow the summaries position by position name exactly the
      conversations the summaries cover. */
  lemma ItemsCover(rows: seq<Conversation>, parts: seq<Participant>, userId: Id,
                   convs: seq<CR.ConversationSummary>, r: seq<ListItem>)
    requires forall s :: s in convs ==> s.conversation in rows && PR.IsParticipant(parts, userId, s.conversation.id)
    requires forall c :: c in rows && PR.IsParticipant(parts, userId, c.id) ==> exists s :: s in convs && s.conversation == c
    requires |r| == |convs|
    requires forall k :: 0 <= k < |r| ==> r[k].id == convs[k].conversation.id
    ensures forall c :: c in rows && PR.IsParticipant(parts, userId, c.id) ==> exists item :: item in r && item.id == c.id
    ensures forall item :: item in r ==> exists c :: c in rows && PR.IsParticipant(parts, userId, c.id) && item.id == c.id
  {
    forall c | c in rows && PR.IsParticipant(parts, userId, c.id) ensures exists item :: item in r && item.id == c.id {
      var s :| s in convs && s.conversation == c;
      var k :| 0 <= k < |convs| && convs[k] == s;
      assert r[k].id == c.id;
    }
    forall item | item in r ensures exists c :: c in rows && PR.IsParticipant(parts, userId, c.id) && item.id == c.id {
      var k :| 0 <= k < |r| && r[k] == item;
      var c := convs[k].conversation;
      assert convs[k] in convs;
      assert c in rows && PR.IsParticipant(parts, userId, c.id) && item.id == c.id;
    }
  }

  /** Items that follow the summaries position by position keep their
      most-recently-updated-first order. */
  lemma ItemsOrdered(convs: seq<CR.ConversationSummary>, r: seq<ListItem>)
    requires forall i, j :: 0 <= i < j < |convs| ==> convs[i].conversation.updatedAt >= convs[j].conversation.updatedAt
    requires |r| == |convs|
    requires forall k :: 0 <= k < |r| ==> r[k].updatedAt == convs[k].conversation.updatedAt
    ensures forall i, j :: 0 <= i < j < |r| ==> r[i].updatedAt >= r[j].updatedAt
  {
  }

  /** A conversation's list item shows the caller's own unread counter, or
      0 when the caller has no participant row in it. */
  lemma ListItemUnreadCount(c: Conversation, parts: seq<Participant>, users: seq<User>, msgs: seq<Message>, userId: Id)
    requires U.FindById(users, userId).Some?
    ensures var row := PR.FindByUserAndConversation(parts, userId, c.id);
            ToListItem(CR.Summarize(c, parts, users, msgs), userId).unreadCount == (if row.Some? then row.value.unreadCount else 0)
  {
    UnreadCountIsCallers(parts, users, c.id, userId);
  }

  /** The unread counter shown for a conversation is the caller's own
      participant counter (the caller's user row exists). */
  lemma {:induction false} UnreadCountIsCallers(parts: seq<Participant>, users: seq<User>, conversationId: Id, userId: Id)
    requires U.FindById(users, userId).Some?
    ensures var mine := FindMember(CR.MembersOf(parts, users, conversationId), (m: CR.Member) => m.participant.userId == userId);
            var row := PR.FindByUserAndConversation(parts, userId, conversationId);
            && (mine.Some? <==> row.Some?)
            && (mine.Some? ==> mine.value.participant == row.value)
  {
    var keep := (m: CR.Member) => m.participant.userId == userId;
    if parts != [] {
      UnreadCountIsCallers(parts[1..], users, conversationId, userId);
      var p := parts[0];
      if p.conversationId == conversationId && U.FindById(users, p.userId).Some? {
        assert CR.MembersOf(parts, users, conversationId)
            == [CR.Member(p, U.FindById(users, p.userId).value)] + CR.MembersOf(parts[1..], users, conversationId);
      } else {
        assert CR.MembersOf(parts, users, conversationId) == CR.MembersOf(parts[1..], users, conversationId);
      }
    }
  }

  /** What `createDirectConversation` returns. */
  datatype DirectResult = DirectResult(conversation: CR.ConversationDetails, created: bool)

  /** `createDirectConversation`: an unknown other user → not found; an
      existing direct conversation of the pair is returned with
      `created = false`; otherwise a new direct conversation with exactly the
      two users as participants is stored and returned with `created = true`.
      Asking for a conversation with oneself fails on the participant key
      when no direct conversation of the caller exists. */
  method CreateDirectConversation(convs: CR.Conversations, parts: PR.Participants, users: seq<User>,
                                  userId: Id, otherUserId: Id, newId: Id, now: Time)
    returns (r: Result<DirectResult, Error>)
    requires convs.Valid() && parts.Valid()
    modifies convs, parts
    ensures convs.Valid() && parts.Valid()
    ensures U.FindById(users, otherUserId).None? ==>
              r == Failure(NotFoundError("User not found")) && convs.rows == old(convs.rows) && parts.rows == old(parts.rows)
    ensures U.FindById(users, otherUserId).Some? && CR.FindDirectConversation(old(convs.rows), old(parts.rows), userId, otherUserId).Some? ==>
              var c := CR.FindDirectConversation(old(convs.rows), old(parts.rows), userId, otherUserId).value;
              && r == Success(DirectResult(CR.ConversationDetails(c, CR.MembersOf(old(parts.rows), users, c.id)), false))
              && convs.rows == old(convs.rows) && parts.rows == old(parts.rows)
    ensures U.FindById(users, otherUserId).Some? && CR.FindDirectConversation(old(convs.rows), old(parts.rows), userId, otherUserId).None? ==>
              var c := CR.NewConversation(newId, Direct, None, None, None, None, now);
              if r.Success? then
                && r.value.created && r.value.conversation.conversation == c
                && convs.rows == old(convs.rows) + [c]
                && parts.rows == old(parts.rows) + [PR.NewParticipant(userId, newId), PR.NewParticipant(otherUserId, newId)]
              else
                && r == Failure(UniqueViolation)
                && convs.rows == old(convs.rows) && parts.rows == old(parts.rows)
                && (userId == otherUserId || CR.FindById(old(convs.rows), newId).Some?
                    || PR.IsParticipant(old(parts.rows), userId, newId) || PR.IsParticipant(old(parts.rows), otherUserId, newId))
  {
    if U.FindById(users, otherUserId).None? {
      return Failure(NotFoundError("User not found"));
    }
    var existing := CR.FindDirectConversation(convs.rows, parts.rows, userId, otherUserId);
    if existing.Some? {
      var c := existing.value;
      return Success(DirectResult(CR.ConversationDetails(c, CR.MembersOf(parts.rows, users, c.id)), false));
    }
    var c := CR.NewConversation(newId, Direct, None, None, None, None, now);
    var created := convs.Create(c, [userId, otherUserId], parts, users);
    if created.Failure? {
      return Failure(created.error);
    }
    assert CR.NewRows([userId, otherUserId], newId) == [PR.NewParticipant(userId, newId), PR.NewParticipant(otherUserId, newId)];
    r := Success(DirectResult(created.value, true));
  }

  /** After a direct conversation of two users is created, asking again
      finds one, so a repeated request does not create a second. */
  lemma RepeatFindsExisting(rows: seq<Conversation>, parts: seq<Participant>, userId: Id, otherUserId: Id, newId: Id, now: Time)
    ensures var c := CR.NewConversation(newId, Direct, None, None, None, None, now);
            var parts' := parts + [PR.NewParticipant(userId, newId), PR.NewParticipant(otherUserId, newId)];
            CR.FindDirectConversation(rows + [c], parts', userId, otherUserId).Some?
  {
    var c := CR.NewConversation(newId, Direct, None, None, None, None, now);
    var parts' := parts + [PR.NewParticipant(userId, newId), PR.NewParticipant(otherUserId, newId)];
    assert PR.NewParticipant(userId, newId) in parts';
    assert PR.NewParticipant(otherUserId, newId) in parts';
    assert CR.IsDirectBetween(c, parts', userId, otherUserId);
    assert c in rows + [c];
  }

  /** `muteConversation`: a non-participant is refused and nothing changes;
      otherwise only `isMuted` of the caller's row is set. */
  method MuteConversation(parts: PR.Participants, userId: Id, conversationId: Id, isMuted: bool)
    returns (r: Result<Participant, Error>)
    requires parts.Valid()
    modifies parts
    ensures parts.Valid()
    ensures !PR.IsParticipant(old(parts.rows), userId, conversationId) ==>
              r == Failure(ForbiddenError(NotParticipant)) && parts.rows == old(parts.rows)
    ensures PR.IsParticipant(old(parts.rows), userId, conversationId) ==>
              && r == Success(PR.FindByUserAndConversation(old(parts.rows), userId, conversationId).value.(isMuted := isMuted))
              && parts.rows == PR.Patched(old(parts.rows), userId, conversationId, MutePatch(isMuted))
  {
    if !PR.IsParticipant(parts.rows, userId, conversationId) {
      return Failure(ForbiddenError(NotParticipant));
    }
    r := parts.UpdateByUserAndConversation(userId, conversationId, MutePatch(isMuted));
  }

  /** The patch `muteConversation` applies: `isMuted` alone. */
  function MutePatch(isMuted: bool): PR.ParticipantPatch {
    PR.ParticipantPatch(None, None, Some(isMuted))
  }

  /** Muting leaves the counter and last-read time of the row as they were. */
  lemma MuteKeepsCounters(rows: seq<Participant>, userId: Id, conversationId: Id, isMuted: bool)
    ensures var before := PR.FindByUserAndConversation(rows, userId, conversationId);
            var after := PR.FindByUserAndConversation(PR.Patched(rows, userId, conversationId, MutePatch(isMuted)), userId, conversationId);
            before.Some? ==> after == Some(before.value.(isMuted := isMuted))
  {
    PR.PatchEffect(rows, userId, conversationId, MutePatch(isMuted), userId, conversationId);
  }
}
