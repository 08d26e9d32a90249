/** The message operations of the chat: reading a conversation page by page,
    sending, marking as read and deleting. Each checks that the caller may
    act on the conversation before touching any table. */
module MessageService {
  import opened Wrappers
  import opened Entities
  import opened Errors
  import Text
  import Sorting
  import MR = MessageRepository
  import PR = ParticipantRepository
  import CR = ConversationRepository

  /** `PaginatedMessages`: one page, the cursor for the next and whether there is one. */
  datatype Page = Page(messages: seq<Message>, nextCursor: Option<Id>, hasMore: bool)

  /** The page `getMessages` makes from the `limit + 1` rows it fetched: a
      surplus row means there is more, and is dropped; the last row kept is
      the next cursor (none when nothing is kept). */
  function Paginate(fetched: seq<Message>, limit: nat): Page {
    var hasMore := |fetched| > limit;
    var kept := if hasMore then fetched[..|fetched| - 1] else fetched;
    var nextCursor := if hasMore && |kept| > 0 then Some(kept[|kept| - 1].id) else None;
    Page(kept, nextCursor, hasMore)
  }

  /** A page holds the first `limit` live messages after the cursor, newest
      first; `hasMore` says exactly whether any are left beyond them, and the
      next cursor is the id of the last one shown. */
  lemma PageSpec(rows: seq<Message>, conversationId: Id, limit: nat, cursor: Option<Id>)
    ensures var o := MR.Ordered(rows, conversationId);
            var s := MR.StartAfter(o, cursor);
            var p := Paginate(MR.FindByConversation(rows, conversationId, limit, cursor), limit);
            && |p.messages| <= limit
            && p.messages == o[s..][..Text.Min(limit, |o| - s)]
            && (p.hasMore <==> |o| - s > limit)
            && p.nextCursor == (if |o| - s > limit && limit > 0 then Some(o[s + limit - 1].id) else None)
  {
    var o := MR.Ordered(rows, conversationId);
    var s := MR.StartAfter(o, cursor);
    var fetched := MR.FindByConversation(rows, conversationId, limit, cursor);
    assert fetched == o[s..][..Text.Min(limit + 1, |o| - s)];
    PaginateWindow(o, s, limit);
  }

  /** Paginating the `limit + 1` window after position s of any list. */
  lemma PaginateWindow(o: seq<Message>, s: nat, limit: nat)
    requires s <= |o|
    ensures Paginate(o[s..][..Text.Min(limit + 1, |o| - s)], limit)
         == Page(o[s..][..Text.Min(limit, |o| - s)],
                 if |o| - s > limit && limit > 0 then Some(o[s + limit - 1].id) else None,
                 |o| - s > limit)
  {
    var w := o[s..][..Text.Min(limit + 1, |o| - s)];
    TrimSurplus(o, s, limit);
    if |w| > limit && limit > 0 {
      assert w[..|w| - 1][|w| - 2] == w[limit - 1];
    }
  }

  /** Dropping the surplus row of a `limit + 1` window leaves the `limit` window. */
  lemma TrimSurplus<T>(o: seq<T>, s: nat, limit: nat)
    requires s <= |o|
    ensures var w := o[s..][..Text.Min(limit + 1, |o| - s)];
            && (|w| > limit <==> |o| - s > limit)
            && (if |w| > limit then w[..|w| - 1] else w) == o[s..][..Text.Min(limit, |o| - s)]
            && (|w| > limit && limit > 0 ==> w[limit - 1] == o[s + limit - 1])
  {
  }

  /** Following `nextCursor` continues exactly where the page ended: no live
      message is skipped or shown twice. Message ids are distinct and
      non-empty (they are UUIDs). */
  lemma NextPageContinues(rows: seq<Message>, conversationId: Id, limit: nat, cursor: Option<Id>)
    requires MR.IdsUnique(rows)
    requires forall m :: m in rows ==> m.id != ""
    ensures var o := MR.Ordered(rows, conversationId);
            var s := MR.StartAfter(o, cursor);
            var p := Paginate(MR.FindByConversation(rows, conversationId, limit, cursor), limit);
            p.nextCursor.Some? ==> MR.StartAfter(o, p.nextCursor) == s + limit
  {
    var o := MR.Ordered(rows, conversationId);
    var s := MR.StartAfter(o, cursor);
    var p := Paginate(MR.FindByConversation(rows, conversationId, limit, cursor), limit);
    PageSpec(rows, conversationId, limit, cursor);
    if p.nextCursor.Some? {
      var k := s + limit - 1;
      MR.OrderedIdsUnique(rows, conversationId);
      assert o[k] in rows;
      UniqueIndex(o, k);
    }
  }

  /** In a list with distinct ids, a row's id is found at that row's position. */
  lemma UniqueIndex(o: seq<Message>, k: nat)
    requires MR.IdsUnique(o) && k < |o| && o[k].id != ""
    ensures MR.StartAfter(o, Some(o[k].id)) == k + 1
  {
    var found := MR.IndexOfId(o, o[k].id);
    assert found.Some?;
    assert found.value == k;
  }

  /** The row `sendMessage` creates: status `sent`, falsy text or image stored as null. */
  function Composed(id: Id, conversationId: Id, senderId: Id, text: Option<string>, imageUrl: Option<string>, now: Time): (m: Message)
    ensures m.status == Sent && m.deletedAt.None? && m.createdAt == now
    ensures m.text.Some? <==> Truthy(text)
    ensures m.imageUrl.Some? <==> Truthy(imageUrl)
  {
    Message(id, conversationId, senderId, OrNull(text), OrNull(imageUrl), Sent, now, None, None)
  }

  /** A message sent later than every message of its conversation heads the
      first page of that conversation. */
  lemma SentMessageHeadsFirstPage(rows: seq<Message>, m: Message, limit: nat)
    requires m.deletedAt.None?
    requires forall x :: x in rows && x.conversationId == m.conversationId ==> x.createdAt < m.createdAt
    ensures var page := MR.FindByConversation(rows + [m], m.conversationId, limit, None);
            |page| > 0 && page[0] == m
  {
    var all := rows + [m];
    MR.NewestHeadsOrdered(all, m);
    MR.FirstPageIsNewest(all, m.conversationId, limit);
  }

  /** `getMessages`: a non-participant is refused and nothing changes;
      otherwise the caller gets the page and their unread counter is reset. */
  method GetMessages(msgs: MR.Messages, parts: PR.Participants, conversationId: Id, userId: Id,
                     limit: nat, cursor: Option<Id>, now: Time) returns (r: Result<Page, Error>)
    requires parts.Valid()
    modifies parts
    ensures parts.Valid()
    ensures !PR.IsParticipant(old(parts.rows), userId, conversationId) ==>
              r == Failure(ForbiddenError(NotParticipant)) && parts.rows == old(parts.rows)
    ensures PR.IsParticipant(old(parts.rows), userId, conversationId) ==>
              && r == Success(Paginate(MR.FindByConversation(msgs.rows, conversationId, limit, cursor), limit))
              && parts.rows == PR.Patched(old(parts.rows), userId, conversationId, PR.ResetPatch(now))
  {
    if !PR.IsParticipant(parts.rows, userId, conversationId) {
      return Failure(ForbiddenError(NotParticipant));
    }
    var fetched := MR.FindByConversation(msgs.rows, conversationId, limit, cursor);
    var page := Paginate(fetched, limit);
    var _ := parts.ResetUnreadCount(userId, conversationId, now);
    r := Success(page);
  }

  /** `sendMessage`: a non-participant is refused and nothing changes;
      otherwise the message is stored, the conversation's `updatedAt` moves
      to `now` and every other member's unread counter goes up by one. The
      three writes are not one transaction: a failure after the insert
      leaves the message stored. */
  method SendMessage(msgs: MR.Messages, parts: PR.Participants, convs: CR.Conversations,
                     conversationId: Id, senderId: Id, text: Option<string>, imageUrl: Option<string>,
                     newId: Id, now: Time) returns (r: Result<Message, Error>)
    requires msgs.Valid() && parts.Valid() && convs.Valid()
    modifies msgs, parts, convs
    ensures msgs.Valid() && parts.Valid() && convs.Valid()
    ensures var m := Composed(newId, conversationId, senderId, text, imageUrl, now);
            var member := PR.IsParticipant(old(parts.rows), senderId, conversationId);
            var idFree := MR.FindById(old(msgs.rows), newId).None?;
            var convFound := CR.FindById(old(convs.rows), conversationId).Some?;
            && (!member ==> r == Failure(ForbiddenError(NotParticipant)))
            && (member && !idFree ==> r == Failure(UniqueViolation))
            && (member && idFree && !convFound ==> r == Failure(RecordNotFound))
            && (member && idFree && convFound ==> r == Success(m))
            && msgs.rows == (if member && idFree then old(msgs.rows) + [m] else old(msgs.rows))
            && convs.rows == (if member && idFree && convFound then CR.Touched(old(convs.rows), conversationId, now) else old(convs.rows))
            && parts.rows == (if member && idFree && convFound then PR.Incremented(old(parts.rows), conversationId, senderId) else old(parts.rows))
  {
    if !PR.IsParticipant(parts.rows, senderId, conversationId) {
      return Failure(ForbiddenError(NotParticipant));
    }
    var m := Composed(newId, conversationId, senderId, text, imageUrl, now);
    var created := msgs.Create(m);
    if created.Failure? {
      return created;
    }
    var touched := convs.UpdateTimestamp(conversationId, now);
    if touched.Failure? {
      return Failure(touched.error);
    }
    parts.IncrementUnreadCount(conversationId, senderId);
    r := Success(m);
  }

  /** `markMessageAsRead`: unknown id → not found; the sender's own message
      comes back untouched; a non-participant is refused; otherwise the
      message becomes `read` and the caller's counter is reset. */
  method MarkMessageAsRead(msgs: MR.Messages, parts: PR.Participants, messageId: Id, userId: Id, now: Time)
    returns (r: Result<Message, Error>)
    requires msgs.Valid() && parts.Valid()
    modifies msgs, parts
    ensures msgs.Valid() && parts.Valid()
    ensures var found := MR.FindById(old(msgs.rows), messageId);
            && (found.None? ==> r == Failure(NotFoundError("Message not found")))
            && (found.Some? && found.value.senderId == userId ==> r == Success(found.value))
            && (found.Some? && found.value.senderId != userId
                && !PR.IsParticipant(old(parts.rows), userId, found.value.conversationId)
                ==> r == Failure(ForbiddenError(NotParticipant)))
            && var marks := found.Some? && found.value.senderId != userId
                            && PR.IsParticipant(old(parts.rows), userId, found.value.conversationId);
            && (marks ==> r == Success(found.value.(status := Read)))
            && msgs.rows == (if marks then MR.MapRows(old(msgs.rows), MR.StatusSetter(messageId, Read)) else old(msgs.rows))
            && parts.rows == (if marks then PR.Patched(old(parts.rows), userId, found.value.conversationId, PR.ResetPatch(now))
                              else old(parts.rows))
  {
    var found := MR.FindById(msgs.rows, messageId);
    if found.None? {
      return Failure(NotFoundError("Message not found"));
    }
    var message := found.value;
    if message.senderId == userId {
      return Success(message);
    }
    if !PR.IsParticipant(parts.rows, userId, message.conversationId) {
      return Failure(ForbiddenError(NotParticipant));
    }
    var _ := msgs.UpdateStatus(messageId, Read);
    var _ := parts.ResetUnreadCount(userId, message.conversationId, now);
    r := Success(message.(status := Read));
  }

  /** `markConversationAsRead`: a non-participant is refused; otherwise the
      conversation's `sent` messages from others become `read` and the
      caller's counter is reset. */
  method MarkConversationAsRead(msgs: MR.Messages, parts: PR.Participants, conversationId: Id, userId: Id, now: Time)
    returns (r: Result<(), Error>)
    requires msgs.Valid() && parts.Valid()
    modifies msgs, parts
    ensures msgs.Valid() && parts.Valid()
    ensures !PR.IsParticipant(old(parts.rows), userId, conversationId) ==>
              r == Failure(ForbiddenError(NotParticipant)) && msgs.rows == old(msgs.rows) && parts.rows == old(parts.rows)
    ensures PR.IsParticipant(old(parts.rows), userId, conversationId) ==>
              && r == Success(())
              && msgs.rows == MR.MarkedRead(old(msgs.rows), conversationId, userId)
              && parts.rows == PR.Patched(old(parts.rows), userId, conversationId, PR.ResetPatch(now))
  {
    if !PR.IsParticipant(parts.rows, userId, conversationId) {
      return Failure(ForbiddenError(NotParticipant));
    }
    msgs.MarkAsRead(conversationId, userId);
    var _ := parts.ResetUnreadCount(userId, conversationId, now);
    r := Success(());
  }

  /** What `deleteMessage` returns. */
  datatype Deletion = Deletion(messageId: Id, conversationId: Id, deletedFor: DeletedFor)

  /** `deleteMessage`: unknown id → not found; deleting for everyone is
      reserved to the sender; otherwise the message is soft-deleted. No
      participant check is made. */
  method DeleteMessage(msgs: MR.Messages, messageId: Id, userId: Id, deleteFor: DeletedFor, now: Time)
    returns (r: Result<Deletion, Error>)
    requires msgs.Valid()
    modifies msgs
    ensures msgs.Valid()
    ensures var found := MR.FindById(old(msgs.rows), messageId);
            && (found.None? ==> r == Failure(NotFoundError("Message not found")))
            && (found.Some? && deleteFor == ForEveryone && found.value.senderId != userId ==>
                  r == Failure(ForbiddenError("Can only delete your own messages for everyone")))
            && var deletes := found.Some? && (deleteFor == ForSelf || found.value.senderId == userId);
            && (deletes ==> r == Success(Deletion(messageId, found.value.conversationId, deleteFor)))
            && msgs.rows == (if deletes then MR.SoftDeleted(old(msgs.rows), messageId, deleteFor, now) else old(msgs.rows))
  {
    var found := MR.FindById(msgs.rows, messageId);
    if found.None? {
      return Failure(NotFoundError("Message not found"));
    }
    var message := found.value;
    if deleteFor == ForEveryone && message.senderId != userId {
      return Failure(ForbiddenError("Can only delete your own messages for everyone"));
    }
    var _ := msgs.SoftDelete(messageId, deleteFor, now);
    r := Success(Deletion(messageId, message.conversationId, deleteFor));
  }

  /** Deleting "for self" hides the message from every member's pages, not
      only the deleter's: the page query filters on `deletedAt` alone. */
  lemma DeleteForSelfHidesForEveryone(rows: seq<Message>, id: Id, now: Time, conversationId: Id, limit: nat, cursor: Option<Id>)
    ensures forall m :: m in MR.FindByConversation(MR.SoftDeleted(rows, id, ForSelf, now), conversationId, limit, cursor)
                        ==> m.id != id
  {
    MR.SoftDeleteHides(rows, id, ForSelf, now, conversationId);
  }
}
