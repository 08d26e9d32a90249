/** The conversation table and the queries that join it with participants,
    users and messages: lookups with members, direct-conversation search,
    the user's conversation list and the group list. */
module ConversationRepository {
  import opened Wrappers
  import opened Entities
  import opened Errors
  import opened Text
  import Sorting
  import P = ParticipantRepository
  import U = UserRepository
  import M = MessageRepository

  ghost predicate IdsUnique(rows: seq<Conversation>) {
    forall i, j :: 0 <= i < j < |rows| ==> rows[i].id != rows[j].id
  }

  /** A participant row joined with its user (`include: { user: true }`). */
  datatype Member = Member(participant: Participant, user: User)

  /** A conversation with its members, as `findById`, `findDirectConversation` and `create` return it. */
  datatype ConversationDetails = ConversationDetails(conversation: Conversation, participants: seq<Member>)

  /** The members of a conversation joined with their users, in participant
      table order; a participant whose user row is missing (which the
      foreign key rules out) has no member entry. */
  function MembersOf(parts: seq<Participant>, users: seq<User>, conversationId: Id): (r: seq<Member>)
    ensures forall m :: m in r ==> (m.participant in parts && m.participant.conversationId == conversationId
                                    && U.FindById(users, m.participant.userId) == Some(m.user))
    ensures |r| <= |parts|
  {
    if parts == [] then []
    else
      var p := parts[0];
      var here := if p.conversationId == conversationId && U.FindById(users, p.userId).Some?
                  then [Member(p, U.FindById(users, p.userId).value)] else [];
      here + MembersOf(parts[1..], users, conversationId)
  }

  lemma {:induction false} MemberPresent(parts: seq<Participant>, users: seq<User>, conversationId: Id, p: Participant)
    requires p in parts && p.conversationId == conversationId && U.FindById(users, p.userId).Some?
    ensures exists m :: m in MembersOf(parts, users, conversationId) && m.participant == p
  {
    if parts[0] != p {
      MemberPresent(parts[1..], users, conversationId, p);
      var m :| m in MembersOf(parts[1..], users, conversationId) && m.participant == p;
      assert m in MembersOf(parts, users, conversationId);
    } else {
      assert MembersOf(parts, users, conversationId)[0].participant == p;
    }
  }

  /** `findById` without its include: the row with that id. */
  function FindById(rows: seq<Conversation>, id: Id): (r: Option<Conversation>)
    ensures r.Some? ==> r.value in rows && r.value.id == id
    ensures r.None? ==> forall c :: c in rows ==> c.id != id
  {
    if rows == [] then None
    else if rows[0].id == id then Some(rows[0])
    else FindById(rows[1..], id)
  }

  /** `findById`: the conversation with its members. */
  function FindByIdWithMembers(rows: seq<Conversation>, parts: seq<Participant>, users: seq<User>, id: Id): (r: Option<ConversationDetails>)
    ensures r.Some? <==> FindById(rows, id).Some?
    ensures r.Some? ==> r.value.conversation == FindById(rows, id).value
  {
    match FindById(rows, id)
    case None => None
    case Some(c) => Some(ConversationDetails(c, MembersOf(parts, users, id)))
  }

  /** The `where` of `findDirectConversation`: a direct conversation both users belong to. */
  predicate IsDirectBetween(c: Conversation, parts: seq<Participant>, userId1: Id, userId2: Id) {
    c.kind == Direct && P.IsParticipant(parts, userId1, c.id) && P.IsParticipant(parts, userId2, c.id)
  }

  /** `findDirectConversation`: the first conversation in table order matching the `where`. */
  function FindDirectConversation(rows: seq<Conversation>, parts: seq<Participant>, userId1: Id, userId2: Id): (r: Option<Conversation>)
    ensures r.Some? ==> r.value in rows && IsDirectBetween(r.value, parts, userId1, userId2)
    ensures r.None? ==> forall c :: c in rows ==> !IsDirectBetween(c, parts, userId1, userId2)
  {
    if rows == [] then None
    else if IsDirectBetween(rows[0], parts, userId1, userId2) then Some(rows[0])
    else FindDirectConversation(rows[1..], parts, userId1, userId2)
  }

  /** The search does not depend on the order of the two users. */
  lemma {:induction false} FindDirectConversationSymmetric(rows: seq<Conversation>, parts: seq<Participant>, userId1: Id, userId2: Id)
    ensures FindDirectConversation(rows, parts, userId1, userId2) == FindDirectConversation(rows, parts, userId2, userId1)
  {
    if rows != [] {
      FindDirectConversationSymmetric(rows[1..], parts, userId1, userId2);
    }
  }

  /** A conversation of the user's list with its members and at most one message. */
  datatype ConversationSummary = ConversationSummary(conversation: Conversation, participants: seq<Member>, messages: seq<Message>)

  /** `orderBy: { updatedAt: "desc" }`. */
  predicate RecentlyUpdatedFirst(a: Conversation, b: Conversation) { a.updatedAt >= b.updatedAt }

  function Memberships(rows: seq<Conversation>, parts: seq<Participant>, userId: Id): (r: seq<Conversation>)
    ensures forall c :: c in r <==> c in rows && P.IsParticipant(parts, userId, c.id)
  {
    if rows == [] then []
    else (if P.IsParticipant(parts, userId, rows[0].id) then [rows[0]] else [])
         + Memberships(rows[1..], parts, userId)
  }

  /** The conversation's messages newest first, soft-deleted ones included, cut to one (`take: 1`). */
  function Latest(msgs: seq<Message>, conversationId: Id): (r: seq<Message>)
    ensures |r| <= 1
    ensures forall m :: m in r ==> m in msgs && m.conversationId == conversationId
    ensures r == [] <==> forall m :: m in msgs ==> m.conversationId != conversationId
    ensures r != [] ==> forall m :: m in msgs && m.conversationId == conversationId ==> r[0].createdAt >= m.createdAt
  {
    var sorted := Sorting.Sort(OfConversation(msgs, conversationId), M.NewestFirst);
    NewestOfConversation(msgs, conversationId);
    if sorted == [] then []
    else
      assert sorted[0] in sorted;
      [sorted[0]]
  }

  /** The conversation's messages sorted newest first: the same messages, the newest at the head. */
  lemma NewestOfConversation(msgs: seq<Message>, conversationId: Id)
    ensures var sorted := Sorting.Sort(OfConversation(msgs, conversationId), M.NewestFirst);
            && (forall m :: m in sorted <==> m in msgs && m.conversationId == conversationId)
            && (sorted != [] ==> forall m :: m in msgs && m.conversationId == conversationId ==> sorted[0].createdAt >= m.createdAt)
  {
    var all := OfConversation(msgs, conversationId);
    var sorted := Sorting.Sort(all, M.NewestFirst);
    Sorting.SortSameElements(all, M.NewestFirst);
    M.NewestFirstIsTotalPreorder();
    Sorting.SortSorted(all, M.NewestFirst);
    if sorted != [] {
      forall m | m in sorted ensures sorted[0].createdAt >= m.createdAt {
        var k :| 0 <= k < |sorted| && sorted[k] == m;
        assert k > 0 ==> M.NewestFirst(sorted[0], sorted[k]);
      }
    }
  }

  function OfConversation(msgs: seq<Message>, conversationId: Id): (r: seq<Message>)
    ensures forall m :: m in r <==> m in msgs && m.conversationId == conversationId
  {
    if msgs == [] then []
    else (if msgs[0].conversationId == conversationId then [msgs[0]] else []) + OfConversation(msgs[1..], conversationId)
  }

  function Summarize(c: Conversation, parts: seq<Participant>, users: seq<User>, msgs: seq<Message>): ConversationSummary {
    ConversationSummary(c, MembersOf(parts, users, c.id), Latest(msgs, c.id))
  }

  /** The user's conversations, most recently updated first. */
  function UserConversationOrder(rows: seq<Conversation>, parts: seq<Participant>, userId: Id): (r: seq<Conversation>)
    ensures forall c :: c in r <==> c in rows && P.IsParticipant(parts, userId, c.id)
    ensures forall i, j :: 0 <= i < j < |r| ==> r[i].updatedAt >= r[j].updatedAt
  {
    var mine := Memberships(rows, parts, userId);
    Sorting.SortSameElements(mine, RecentlyUpdatedFirst);
    assert Sorting.TotalPreorder(RecentlyUpdatedFirst);
    Sorting.SortSorted(mine, RecentlyUpdatedFirst);
    Sorting.Sort(mine, RecentlyUpdatedFirst)
  }

  /** `findUserConversations(userId)`: every conversation the user belongs to
      and no other, most recently updated first, each with its members and
      its newest message. */
  function FindUserConversations(rows: seq<Conversation>, parts: seq<Participant>, users: seq<User>, msgs: seq<Message>, userId: Id)
    : (r: seq<ConversationSummary>)
    ensures forall s :: s in r ==> s.conversation in rows && P.IsParticipant(parts, userId, s.conversation.id)
    ensures forall c :: c in rows && P.IsParticipant(parts, userId, c.id) ==> exists s :: s in r && s.conversation == c
    ensures forall i, j :: 0 <= i < j < |r| ==> r[i].conversation.updatedAt >= r[j].conversation.updatedAt
  {
    var sorted := UserConversationOrder(rows, parts, userId);
    SummariesCover(sorted, parts, users, msgs);
    seq(|sorted|, k requires 0 <= k < |sorted| => Summarize(sorted[k], parts, users, msgs))
  }

  /** Every summary of `findUserConversations` carries its conversation's
      members and newest message. */
  lemma UserConversationsSummarized(rows: seq<Conversation>, parts: seq<Participant>, users: seq<User>, msgs: seq<Message>, userId: Id)
    ensures forall s :: s in FindUserConversations(rows, parts, users, msgs, userId) ==> s == Summarize(s.conversation, parts, users, msgs)
  {
    SummariesCover(UserConversationOrder(rows, parts, userId), parts, users, msgs);
  }

  /** Summarizing a list of conversations keeps one summary per conversation, in order. */
  lemma SummariesCover(sorted: seq<Conversation>, parts: seq<Participant>, users: seq<User>, msgs: seq<Message>)
    ensures var r := seq(|sorted|, k requires 0 <= k < |sorted| => Summarize(sorted[k], parts, users, msgs));
            && (forall s :: s in r ==> s.conversation in sorted)
            && (forall c :: c in sorted ==> exists s :: s in r && s.conversation == c)
            && (forall k :: 0 <= k < |r| ==> r[k].conversation == sorted[k])
            && (forall s :: s in r ==> s == Summarize(s.conversation, parts, users, msgs))
  {
    var r := seq(|sorted|, k requires 0 <= k < |sorted| => Summarize(sorted[k], parts, users, msgs));
    forall c | c in sorted ensures exists s :: s in r && s.conversation == c {
      var k :| 0 <= k < |sorted| && sorted[k] == c;
      assert r[k].conversation == c;
    }
    forall s | s in r ensures s == Summarize(s.conversation, parts, users, msgs) {
      var k :| 0 <= k < |r| && r[k] == s;
    }
  }

  function ConversationId(c: Conversation): Id { c.id }

  /** Keeping the user's conversations keeps the ids distinct. */
  lemma {:induction false} MembershipsIdsUnique(rows: seq<Conversation>, parts: seq<Participant>, userId: Id)
    requires Sorting.DistinctKeys(rows, ConversationId)
    ensures Sorting.DistinctKeys(Memberships(rows, parts, userId), ConversationId)
  {
    if rows != [] {
      var tail := rows[1..];
      Sorting.DistinctKeysTail(rows, ConversationId);
      MembershipsIdsUnique(tail, parts, userId);
      var rest := Memberships(tail, parts, userId);
      if P.IsParticipant(parts, userId, rows[0].id) {
        forall c | c in rest ensures ConversationId(c) != ConversationId(rows[0]) {
          var k :| 0 <= k < |tail| && tail[k] == c;
          assert rows[k + 1] == c;
        }
        Sorting.DistinctKeysCons(rows[0], rest, ConversationId);
      }
    }
  }

  /** With unique conversation ids, `findUserConversations` lists each of
      the user's conversations exactly once. */
  lemma UserConversationsOnce(rows: seq<Conversation>, parts: seq<Participant>, users: seq<User>, msgs: seq<Message>, userId: Id)
    requires IdsUnique(rows)
    ensures var r := FindUserConversations(rows, parts, users, msgs, userId);
            forall i, j :: 0 <= i < j < |r| ==> r[i].conversation.id != r[j].conversation.id
  {
    var mine := Memberships(rows, parts, userId);
    assert Sorting.DistinctKeys(rows, ConversationId);
    MembershipsIdsUnique(rows, parts, userId);
    var sorted := UserConversationOrder(rows, parts, userId);
    assert sorted == Sorting.Sort(mine, RecentlyUpdatedFirst);
    Sorting.DistinctKeysPermutation(mine, sorted, ConversationId);
    SummariesCover(sorted, parts, users, msgs);
    var r := FindUserConversations(rows, parts, users, msgs, userId);
    forall i, j | 0 <= i < j < |r| ensures r[i].conversation.id != r[j].conversation.id {
      assert r[i].conversation == sorted[i] && r[j].conversation == sorted[j];
      assert ConversationId(sorted[i]) != ConversationId(sorted[j]);
    }
  }

  /** A group row of `findGroups`: the caller's participant rows in it (zero
      or one) and the group's total participant count (`_count`). */
  datatype GroupRow = GroupRow(conversation: Conversation, callerRows: seq<Participant>, participantCount: nat)

  /** The `where` of `findGroups`: groups, and with a truthy search only
      those whose name contains it case-insensitively. */
  predicate GroupMatches(c: Conversation, search: Option<string>) {
    && c.kind == Group
    && (Truthy(search) ==> c.name.Some? && ContainsInsensitive(c.name.value, search.value))
  }

  function CallerRows(parts: seq<Participant>, userId: Id, conversationId: Id): (r: seq<Participant>)
    ensures forall p :: p in r <==> p in parts && P.HasKey(p, userId, conversationId)
  {
    if parts == [] then []
    else (if P.HasKey(parts[0], userId, conversationId) then [parts[0]] else []) + CallerRows(parts[1..], userId, conversationId)
  }

  function ToGroupRow(c: Conversation, parts: seq<Participant>, userId: Id): GroupRow {
    GroupRow(c, CallerRows(parts, userId, c.id), |P.FindByConversation(parts, c.id)|)
  }

  /** `findGroups(userId, search)`: the matching groups in table order. */
  function FindGroups(rows: seq<Conversation>, parts: seq<Participant>, userId: Id, search: Option<string>): (r: seq<GroupRow>)
    ensures forall g :: g in r ==> g.conversation in rows && GroupMatches(g.conversation, search)
                                   && g == ToGroupRow(g.conversation, parts, userId)
    ensures forall c :: c in rows && GroupMatches(c, search) ==> exists g :: g in r && g.conversation == c
  {
    if rows == [] then []
    else (if GroupMatches(rows[0], search) then [ToGroupRow(rows[0], parts, userId)] else [])
         + FindGroups(rows[1..], parts, userId, search)
  }

  /** The caller's row list in a group is non-empty exactly when the caller is a member. */
  lemma CallerRowsMeansMember(parts: seq<Participant>, userId: Id, conversationId: Id)
    ensures |CallerRows(parts, userId, conversationId)| > 0 <==> P.IsParticipant(parts, userId, conversationId)
  {
    var r := CallerRows(parts, userId, conversationId);
    if |r| > 0 {
      assert r[0] in r;
    }
    if P.IsParticipant(parts, userId, conversationId) {
      assert P.FindByUserAndConversation(parts, userId, conversationId).value in r;
    }
  }

  /** The conversation row `create` inserts: `updatedAt` starts at the creation time. */
  function NewConversation(id: Id, kind: ConversationType, name: Option<string>, icon: Option<string>,
                           iconBg: Option<string>, about: Option<string>, now: Time): Conversation {
    Conversation(id, kind, name, icon, iconBg, about, now, now)
  }

  function NewRows(userIds: seq<Id>, conversationId: Id): (r: seq<Participant>)
    ensures |r| == |userIds|
    ensures forall k :: 0 <= k < |r| ==> r[k] == P.NewParticipant(userIds[k], conversationId)
  {
    seq(|userIds|, k requires 0 <= k < |userIds| => P.NewParticipant(userIds[k], conversationId))
  }

  predicate Distinct(ids: seq<Id>) { forall i, j :: 0 <= i < j < |ids| ==> ids[i] != ids[j] }

  class Conversations {
    var rows: seq<Conversation>

    ghost predicate Valid()
      reads this
    {
      IdsUnique(rows)
    }

    constructor ()
      ensures Valid() && rows == []
    {
      rows := [];
    }

    /** `create` with nested participant rows for `memberIds`: all rows are
        written, or (on a duplicate key) none. */
    method Create(c: Conversation, memberIds: seq<Id>, parts: P.Participants, users: seq<User>)
      returns (r: Result<ConversationDetails, Error>)
      requires Valid() && parts.Valid()
      modifies this, parts
      ensures Valid() && parts.Valid()
      ensures var ok := FindById(old(rows), c.id).None? && Distinct(memberIds)
                        && forall u :: u in memberIds ==> !P.IsParticipant(old(parts.rows), u, c.id);
              && (!ok ==> r == Failure(UniqueViolation) && rows == old(rows) && parts.rows == old(parts.rows))
              && (ok ==> && rows == old(rows) + [c]
                         && parts.rows == old(parts.rows) + NewRows(memberIds, c.id)
                         && r == Success(ConversationDetails(c, MembersOf(parts.rows, users, c.id))))
    {
      if FindById(rows, c.id).Some? {
        return Failure(UniqueViolation);
      }
      var k := 0;
      while k < |memberIds|
        invariant 0 <= k <= |memberIds|
        invariant forall i :: 0 <= i < k ==> !P.IsParticipant(parts.rows, memberIds[i], c.id)
        invariant forall i, j :: 0 <= i < j < k ==> memberIds[i] != memberIds[j]
      {
        if P.IsParticipant(parts.rows, memberIds[k], c.id) {
          return Failure(UniqueViolation);
        }
        var j := 0;
        while j < k
          invariant 0 <= j <= k
          invariant forall i :: 0 <= i < j ==> memberIds[i] != memberIds[k]
        {
          if memberIds[j] == memberIds[k] {
            return Failure(UniqueViolation);
          }
          j := j + 1;
        }
        k := k + 1;
      }
      forall i | 0 <= i < |rows| ensures rows[i].id != c.id {
        assert rows[i] in rows;
      }
      rows := rows + [c];
      var i := 0;
      while i < |memberIds|
        invariant 0 <= i <= |memberIds|
        invariant parts.Valid()
        invariant parts.rows == old(parts.rows) + NewRows(memberIds[..i], c.id)
        invariant rows == old(rows) + [c]
      {
        var u := memberIds[i];
        NotYetAdded(old(parts.rows), memberIds, i, c.id);
        var _ := parts.Create(u, c.id);
        assert memberIds[..i + 1] == memberIds[..i] + [u];
        assert NewRows(memberIds[..i + 1], c.id) == NewRows(memberIds[..i], c.id) + [P.NewParticipant(u, c.id)];
        i := i + 1;
      }
      assert memberIds[..i] == memberIds;
      r := Success(ConversationDetails(c, MembersOf(parts.rows, users, c.id)));
    }

    /** `updateTimestamp`: the row's `updatedAt` becomes `now`; nothing else changes. */
    method UpdateTimestamp(id: Id, now: Time) returns (r: Result<Conversation, Error>)
      requires Valid()
      modifies this
      ensures Valid()
      ensures FindById(old(rows), id).None? ==> r == Failure(RecordNotFound) && rows == old(rows)
      ensures FindById(old(rows), id).Some? ==>
                r == Success(FindById(old(rows), id).value.(updatedAt := now)) && rows == Touched(old(rows), id, now)
    {
      var found := FindById(rows, id);
      if found.None? {
        return Failure(RecordNotFound);
      }
      TouchedEffect(rows, id, now);
      rows := Touched(rows, id, now);
      r := Success(found.value.(updatedAt := now));
    }
  }

  /** The table after `updatedAt` of row `id` is set to `now`. */
  function Touched(rows: seq<Conversation>, id: Id, now: Time): seq<Conversation> {
    seq(|rows|, k requires 0 <= k < |rows| => if rows[k].id == id then rows[k].(updatedAt := now) else rows[k])
  }

  /** Touching keeps every id, so the table stays keyed; the touched row is
      found with its new time and every other lookup is unchanged. */
  lemma TouchedEffect(rows: seq<Conversation>, id: Id, now: Time)
    requires IdsUnique(rows)
    ensures IdsUnique(Touched(rows, id, now))
    ensures |Touched(rows, id, now)| == |rows|
    ensures FindById(Touched(rows, id, now), id) == if FindById(rows, id).Some? then Some(FindById(rows, id).value.(updatedAt := now)) else None
    ensures forall other :: other != id ==> FindById(Touched(rows, id, now), other) == FindById(rows, other)
  {
    var t := Touched(rows, id, now);
    assert forall k :: 0 <= k < |rows| ==> t[k].id == rows[k].id;
    forall other ensures FindById(t, other) == (if other == id then (if FindById(rows, id).Some? then Some(FindById(rows, id).value.(updatedAt := now)) else None) else FindById(rows, other)) {
      FindAfterTouch(rows, id, now, other);
    }
  }

  lemma {:induction false} FindAfterTouch(rows: seq<Conversation>, id: Id, now: Time, other: Id)
    ensures FindById(Touched(rows, id, now), other) ==
              if other == id then (if FindById(rows, id).Some? then Some(FindById(rows, id).value.(updatedAt := now)) else None)
              else FindById(rows, other)
  {
    if rows != [] {
      FindAfterTouch(rows[1..], id, now, other);
      assert Touched(rows, id, now)[1..] == Touched(rows[1..], id, now);
    }
  }

  /** The i-th member is neither among the old rows nor among those added before it. */
  lemma NotYetAdded(old_rows: seq<Participant>, memberIds: seq<Id>, i: nat, cid: Id)
    requires i < |memberIds| && Distinct(memberIds)
    requires forall u :: u in memberIds ==> !P.IsParticipant(old_rows, u, cid)
    ensures !P.IsParticipant(old_rows + NewRows(memberIds[..i], cid), memberIds[i], cid)
  {
    var all := old_rows + NewRows(memberIds[..i], cid);
    var u := memberIds[i];
    assert u in memberIds;
  }
}
