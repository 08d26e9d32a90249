/** The message table: reads by id and cursor pages of a conversation's
    live messages newest first; writes that create rows, change their
    status and soft-delete them. */
module MessageRepository {
  import opened Wrappers
  import opened Entities
  import opened Errors
  import Text
  import Sorting

  ghost predicate IdsUnique(rows: seq<Message>) {
    forall i, j :: 0 <= i < j < |rows| ==> rows[i].id != rows[j].id
  }

  /** `findById`: the row with that id, if any. */
  function FindById(rows: seq<Message>, id: Id): (r: Option<Message>)
    ensures r.Some? ==> r.value in rows && r.value.id == id
    ensures r.None? ==> forall m :: m in rows ==> m.id != id
  {
    if rows == [] then None
    else if rows[0].id == id then Some(rows[0])
    else FindById(rows[1..], id)
  }

  /** The position of the first row with that id. */
  function IndexOfId(rows: seq<Message>, id: Id): (r: Option<nat>)
    ensures r.Some? ==> r.value < |rows| && rows[r.value].id == id
                        && forall k :: 0 <= k < r.value ==> rows[k].id != id
    ensures r.None? ==> forall k :: 0 <= k < |rows| ==> rows[k].id != id
  {
    if rows == [] then None
    else if rows[0].id == id then Some(0)
    else match IndexOfId(rows[1..], id)
         case None => None
         case Some(k) => Some(k + 1)
  }

  /** `orderBy: { createdAt: "desc" }`. */
  predicate NewestFirst(a: Message, b: Message) { a.createdAt >= b.createdAt }

  lemma NewestFirstIsTotalPreorder()
    ensures Sorting.TotalPreorder(NewestFirst)
  {
  }

  /** The `where` of `findByConversation`: the conversation's rows not soft-deleted, in table order. */
  function Visible(rows: seq<Message>, conversationId: Id): (r: seq<Message>)
    ensures forall m :: m in r <==> m in rows && m.conversationId == conversationId && m.deletedAt.None?
  {
    if rows == [] then []
    else (if rows[0].conversationId == conversationId && rows[0].deletedAt.None? then [rows[0]] else [])
         + Visible(rows[1..], conversationId)
  }

  /** The conversation's live messages, newest first. */
  function Ordered(rows: seq<Message>, conversationId: Id): (r: seq<Message>)
    ensures forall m :: m in r <==> m in rows && m.conversationId == conversationId && m.deletedAt.None?
  {
    Sorting.SortSameElements(Visible(rows, conversationId), NewestFirst);
    Sorting.Sort(Visible(rows, conversationId), NewestFirst)
  }

  /** Where a page starts in the ordered list: the front without a cursor
      (an absent or empty cursor is falsy), just past the cursor row with
      one (`skip: 1`), and past the end when the cursor is not in the list. */
  function StartAfter(ordered: seq<Message>, cursor: Option<Id>): (s: nat)
    ensures s <= |ordered|
  {
    if !Truthy(cursor) then 0
    else match IndexOfId(ordered, cursor.value)
         case None => |ordered|
         case Some(k) => k + 1
  }

  /** `findByConversation(conversationId, limit, cursor)`: up to `limit + 1` rows. */
  function FindByConversation(rows: seq<Message>, conversationId: Id, limit: nat, cursor: Option<Id>): (r: seq<Message>)
    ensures |r| <= limit + 1
    ensures forall m :: m in r ==> m in rows && m.conversationId == conversationId && m.deletedAt.None?
    ensures Sorting.Sorted(r, NewestFirst)
  {
    var o := Ordered(rows, conversationId);
    var s := StartAfter(o, cursor);
    PageOfOrdered(rows, conversationId, s, Text.Min(limit + 1, |o| - s));
    o[s..][..Text.Min(limit + 1, |o| - s)]
  }

  /** Any window of the ordered list holds live messages of the conversation, newest first. */
  lemma PageOfOrdered(rows: seq<Message>, conversationId: Id, s: nat, n: nat)
    requires s + n <= |Ordered(rows, conversationId)|
    ensures var page := Ordered(rows, conversationId)[s..][..n];
            && (forall m :: m in page ==> m in rows && m.conversationId == conversationId && m.deletedAt.None?)
            && Sorting.Sorted(page, NewestFirst)
  {
    var o := Ordered(rows, conversationId);
    var page := o[s..][..n];
    NewestFirstIsTotalPreorder();
    Sorting.SortSorted(Visible(rows, conversationId), NewestFirst);
    forall m | m in page ensures m in o {
      var k :| 0 <= k < |page| && page[k] == m;
      assert o[s + k] == m;
    }
    forall i, j | 0 <= i < j < |page| ensures NewestFirst(page[i], page[j]) {
      assert page[i] == o[s + i] && page[j] == o[s + j];
    }
  }

  /** With a cursor that names a live message of the conversation, the page
      is what follows that message in newest-first order. */
  lemma CursorPageFollowsCursor(rows: seq<Message>, conversationId: Id, limit: nat, cursor: Id, k: nat)
    requires var o := Ordered(rows, conversationId);
             k < |o| && o[k].id == cursor && forall j :: 0 <= j < k ==> o[j].id != cursor
    requires cursor != ""
    ensures var o := Ordered(rows, conversationId);
            FindByConversation(rows, conversationId, limit, Some(cursor)) == o[k + 1..][..Text.Min(limit + 1, |o| - k - 1)]
  {
    var o := Ordered(rows, conversationId);
    FirstIndexOfId(o, cursor, k);
    assert StartAfter(o, Some(cursor)) == k + 1;
  }

  /** The lookup finds the first position holding the id. */
  lemma FirstIndexOfId(rows: seq<Message>, id: Id, k: nat)
    requires k < |rows| && rows[k].id == id
    requires forall j :: 0 <= j < k ==> rows[j].id != id
    ensures IndexOfId(rows, id) == Some(k)
  {
  }

  /** A visible message newer than every other message of its conversation
      comes first in the ordered list. */
  lemma NewestHeadsOrdered(rows: seq<Message>, m: Message)
    requires m in rows && m.deletedAt.None?
    requires forall x :: x in rows && x.conversationId == m.conversationId && x != m ==> x.createdAt < m.createdAt
    ensures var o := Ordered(rows, m.conversationId);
            |o| > 0 && o[0] == m
  {
    var o := Ordered(rows, m.conversationId);
    assert m in o;
    NewestFirstIsTotalPreorder();
    Sorting.SortSorted(Visible(rows, m.conversationId), NewestFirst);
    var k :| 0 <= k < |o| && o[k] == m;
    if k > 0 {
      assert NewestFirst(o[0], o[k]);
    }
    assert o[0] in rows;
  }

  /** Without a cursor the page is the newest `limit + 1` live messages. */
  lemma FirstPageIsNewest(rows: seq<Message>, conversationId: Id, limit: nat)
    ensures var o := Ordered(rows, conversationId);
            FindByConversation(rows, conversationId, limit, None) == o[..Text.Min(limit + 1, |o|)]
  {
  }

  /** An `update` of every row (`updateMany`, or a keyed `update` whose function leaves other rows alone). */
  function MapRows(rows: seq<Message>, f: Message -> Message): (r: seq<Message>)
    ensures |r| == |rows|
  {
    seq(|rows|, k requires 0 <= k < |rows| => f(rows[k]))
  }

  function ReadMarker(conversationId: Id, userId: Id): Message -> Message {
    (m: Message) => if m.conversationId == conversationId && m.senderId != userId && m.status == Sent
         then m.(status := Read) else m
  }

  /** The table after `markAsRead(conversationId, userId)`. */
  function MarkedRead(rows: seq<Message>, conversationId: Id, userId: Id): seq<Message> {
    MapRows(rows, ReadMarker(conversationId, userId))
  }

  /** After `markAsRead`, no message of the conversation from someone else is
      still `sent`; the user's own messages and other conversations keep
      their status, and only the status column ever changes. */
  lemma MarkedReadEffect(rows: seq<Message>, conversationId: Id, userId: Id)
    ensures var after := MarkedRead(rows, conversationId, userId);
            forall k :: 0 <= k < |rows| ==>
              && after[k] == rows[k].(status := after[k].status)
              && (rows[k].conversationId == conversationId && rows[k].senderId != userId ==> after[k].status == Read)
              && (rows[k].conversationId != conversationId || rows[k].senderId == userId ==> after[k] == rows[k])
  {
  }

  function StatusSetter(id: Id, status: MessageStatus): Message -> Message {
    (m: Message) => if m.id == id then m.(status := status) else m
  }

  function SoftDeleter(id: Id, deletedFor: DeletedFor, now: Time): Message -> Message {
    (m: Message) => if m.id == id then m.(deletedAt := Some(now), deletedFor := Some(deletedFor)) else m
  }

  /** The table after `softDelete(id, deletedFor)` at time `now`. */
  function SoftDeleted(rows: seq<Message>, id: Id, deletedFor: DeletedFor, now: Time): seq<Message> {
    MapRows(rows, SoftDeleter(id, deletedFor, now))
  }

  /** A soft-deleted row stays in the table but leaves every conversation's
      live list; the other live messages stay as they were. */
  lemma SoftDeleteHides(rows: seq<Message>, id: Id, deletedFor: DeletedFor, now: Time, conversationId: Id)
    ensures |SoftDeleted(rows, id, deletedFor, now)| == |rows|
    ensures forall m :: m in Visible(SoftDeleted(rows, id, deletedFor, now), conversationId)
                    <==> m in Visible(rows, conversationId) && m.id != id
  {
    var after := SoftDeleted(rows, id, deletedFor, now);
    forall m ensures m in after <==> (m in rows && m.id != id) || (m.id == id && m.deletedAt.Some? && m in after) {
      if m in after {
        var k :| 0 <= k < |after| && after[k] == m;
      }
      if m in rows && m.id != id {
        var k :| 0 <= k < |rows| && rows[k] == m;
        assert after[k] == m;
      }
    }
  }

  class Messages {
    var rows: seq<Message>

    ghost predicate Valid()
      reads this
    {
      IdsUnique(rows)
    }

    constructor ()
      ensures Valid() && rows == []
    {
      rows := [];
    }

    /** `create`: stores the row, or fails when its id is taken. */
    method Create(m: Message) returns (r: Result<Message, Error>)
      requires Valid()
      modifies this
      ensures Valid()
      ensures FindById(old(rows), m.id).Some? ==> r == Failure(UniqueViolation) && rows == old(rows)
      ensures FindById(old(rows), m.id).None? ==> r == Success(m) && rows == old(rows) + [m]
    {
      if FindById(rows, m.id).Some? {
        return Failure(UniqueViolation);
      }
      forall i | 0 <= i < |rows| ensures rows[i].id != m.id {
        assert rows[i] in rows;
      }
      rows := rows + [m];
      r := Success(m);
    }

    /** `updateStatus`: sets the status of the one row with that id. */
    method UpdateStatus(id: Id, status: MessageStatus) returns (r: Result<Message, Error>)
      requires Valid()
      modifies this
      ensures Valid()
      ensures FindById(old(rows), id).None? ==> r == Failure(RecordNotFound) && rows == old(rows)
      ensures FindById(old(rows), id).Some? ==>
                && r == Success(FindById(old(rows), id).value.(status := status))
                && rows == MapRows(old(rows), StatusSetter(id, status))
    {
      var found := FindById(rows, id);
      if found.None? {
        return Failure(RecordNotFound);
      }
      rows := MapRows(rows, StatusSetter(id, status));
      r := Success(found.value.(status := status));
    }

    /** `markAsRead`: an `updateMany` turning the conversation's `sent`
        messages from other senders into `read`. */
    method MarkAsRead(conversationId: Id, userId: Id)
      requires Valid()
      modifies this
      ensures Valid()
      ensures rows == MarkedRead(old(rows), conversationId, userId)
    {
      var i := 0;
      while i < |rows|
        invariant 0 <= i <= |rows| == |old(rows)|
        invariant forall k :: 0 <= k < i ==> rows[k] == ReadMarker(conversationId, userId)(old(rows)[k])
        invariant forall k :: i <= k < |rows| ==> rows[k] == old(rows)[k]
      {
        if rows[i].conversationId == conversationId && rows[i].senderId != userId && rows[i].status == Sent {
          rows := rows[i := rows[i].(status := Read)];
        }
        i := i + 1;
      }
    }

    /** `softDelete`: stamps `deletedAt` and `deletedFor` on the row, which stays in the table. */
    method SoftDelete(id: Id, deletedFor: DeletedFor, now: Time) returns (r: Result<Message, Error>)
      requires Valid()
      modifies this
      ensures Valid()
      ensures FindById(old(rows), id).None? ==> r == Failure(RecordNotFound) && rows == old(rows)
      ensures FindById(old(rows), id).Some? ==>
                && r.Success? && r.value.id == id
                && r.value.deletedAt == Some(now) && r.value.deletedFor == Some(deletedFor)
                && rows == SoftDeleted(old(rows), id, deletedFor, now)
    {
      var found := FindById(rows, id);
      if found.None? {
        return Failure(RecordNotFound);
      }
      rows := SoftDeleted(rows, id, deletedFor, now);
      r := Success(SoftDeleter(id, deletedFor, now)(found.value));
    }
  }

  /** Each message appears at most once in a table whose ids are distinct. */
  lemma {:induction false} UniqueMultiplicity(rows: seq<Message>)
    requires IdsUnique(rows)
    ensures forall m :: multiset(rows)[m] <= 1
  {
    if rows != [] {
      UniqueMultiplicity(rows[1..]);
      assert rows == [rows[0]] + rows[1..];
      assert forall k :: 0 <= k < |rows[1..]| ==> rows[1..][k].id != rows[0].id;
    }
  }

  lemma TwoPositions(rows: seq<Message>, i: nat, j: nat)
    requires i < j < |rows| && rows[i] == rows[j]
    ensures multiset(rows)[rows[i]] >= 2
  {
    assert rows == rows[..j] + [rows[j]] + rows[j + 1..];
    assert rows[i] in rows[..j];
  }

  /** Distinct ids survive any rearrangement of the rows. */
  lemma UniqueIdsPermutation(a: seq<Message>, b: seq<Message>)
    requires multiset(a) == multiset(b) && IdsUnique(a)
    ensures IdsUnique(b)
  {
    UniqueMultiplicity(a);
    forall i, j | 0 <= i < j < |b| ensures b[i].id != b[j].id {
      assert b[i] in multiset(a) && b[j] in multiset(a);
      if b[i] == b[j] {
        TwoPositions(b, i, j);
      } else {
        var p :| 0 <= p < |a| && a[p] == b[i];
        var q :| 0 <= q < |a| && a[q] == b[j];
      }
    }
  }

  lemma {:induction false} VisibleIdsUnique(rows: seq<Message>, conversationId: Id)
    requires IdsUnique(rows)
    ensures IdsUnique(Visible(rows, conversationId))
  {
    if rows != [] {
      var head, tail := rows[0], rows[1..];
      TailIdsUnique(rows);
      VisibleIdsUnique(tail, conversationId);
      var rest := Visible(tail, conversationId);
      if head.conversationId == conversationId && head.deletedAt.None? {
        assert Visible(rows, conversationId) == [head] + rest;
        forall m | m in rest ensures m.id != head.id {
          var k :| 0 <= k < |tail| && tail[k] == m;
          assert rows[k + 1] == m;
        }
        ConsIdsUnique(head, rest);
      } else {
        assert Visible(rows, conversationId) == rest;
      }
    }
  }

  lemma TailIdsUnique(rows: seq<Message>)
    requires rows != [] && IdsUnique(rows)
    ensures IdsUnique(rows[1..])
  {
    var tail := rows[1..];
    forall i, j | 0 <= i < j < |tail| ensures tail[i].id != tail[j].id {
      assert tail[i] == rows[i + 1] && tail[j] == rows[j + 1];
    }
  }

  lemma ConsIdsUnique(head: Message, rest: seq<Message>)
    requires IdsUnique(rest) && forall m :: m in rest ==> m.id != head.id
    ensures IdsUnique([head] + rest)
  {
    var r := [head] + rest;
    forall i, j | 0 <= i < j < |r| ensures r[i].id != r[j].id {
      assert r[j] == rest[j - 1];
      if i > 0 {
        assert r[i] == rest[i - 1];
      }
    }
  }

  lemma OrderedIdsUnique(rows: seq<Message>, conversationId: Id)
    requires IdsUnique(rows)
    ensures IdsUnique(Ordered(rows, conversationId))
  {
    VisibleIdsUnique(rows, conversationId);
    UniqueIdsPermutation(Visible(rows, conversationId), Ordered(rows, conversationId));
  }
}
