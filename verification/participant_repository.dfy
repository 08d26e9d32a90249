/** The participant table: one row per (userId, conversationId) pair with
    the member's unread counter, last-read time and mute flag. */
module ParticipantRepository {
  import opened Wrappers
  import opened Entities
  import opened Errors

  predicate HasKey(p: Participant, userId: Id, conversationId: Id) {
    p.userId == userId && p.conversationId == conversationId
  }

  ghost predicate KeysUnique(rows: seq<Participant>) {
    forall i, j :: 0 <= i < j < |rows| ==> !HasKey(rows[j], rows[i].userId, rows[i].conversationId)
  }

  /** `findByUserAndConversation`: the row stored under that key, if any. */
  function FindByUserAndConversation(rows: seq<Participant>, userId: Id, conversationId: Id): (r: Option<Participant>)
    ensures r.Some? ==> r.value in rows && HasKey(r.value, userId, conversationId)
    ensures r.None? ==> forall p :: p in rows ==> !HasKey(p, userId, conversationId)
  {
    if rows == [] then None
    else if HasKey(rows[0], userId, conversationId) then Some(rows[0])
    else FindByUserAndConversation(rows[1..], userId, conversationId)
  }

  predicate IsParticipant(rows: seq<Participant>, userId: Id, conversationId: Id) {
    FindByUserAndConversation(rows, userId, conversationId).Some?
  }

  /** `findByConversation`: the rows of one conversation, in table order. */
  function FindByConversation(rows: seq<Participant>, conversationId: Id): (r: seq<Participant>)
    ensures forall p :: p in r <==> p in rows && p.conversationId == conversationId
    ensures |r| <= |rows|
  {
    if rows == [] then []
    else (if rows[0].conversationId == conversationId then [rows[0]] else [])
         + FindByConversation(rows[1..], conversationId)
  }

  /** The rows that remain when `f` is applied to every row (an `updateMany`). */
  function MapRows(rows: seq<Participant>, f: Participant -> Participant): (r: seq<Participant>)
    ensures |r| == |rows|
  {
    seq(|rows|, k requires 0 <= k < |rows| => f(rows[k]))
  }

  ghost predicate KeepsKey(f: Participant -> Participant) {
    forall p :: HasKey(f(p), p.userId, p.conversationId)
  }

  /** Looking a key up after an update of every row is looking it up before and updating the row found. */
  lemma {:induction false} FindAfterMap(rows: seq<Participant>, f: Participant -> Participant, userId: Id, conversationId: Id)
    requires KeepsKey(f)
    ensures FindByUserAndConversation(MapRows(rows, f), userId, conversationId)
         == match FindByUserAndConversation(rows, userId, conversationId)
            case None => None
            case Some(p) => Some(f(p))
  {
    if rows != [] {
      assert MapRows(rows, f)[1..] == MapRows(rows[1..], f);
      assert HasKey(f(rows[0]), rows[0].userId, rows[0].conversationId);
      FindAfterMap(rows[1..], f, userId, conversationId);
    }
  }

  lemma KeysUniqueAfterMap(rows: seq<Participant>, f: Participant -> Participant)
    requires KeepsKey(f) && KeysUnique(rows)
    ensures KeysUnique(MapRows(rows, f))
  {
    var r := MapRows(rows, f);
    forall i, j | 0 <= i < j < |r| ensures !HasKey(r[j], r[i].userId, r[i].conversationId) {
      assert HasKey(f(rows[i]), rows[i].userId, rows[i].conversationId);
      assert HasKey(f(rows[j]), rows[j].userId, rows[j].conversationId);
    }
  }

  /** The effect of `incrementUnreadCount` on one row. */
  function Bump(p: Participant, conversationId: Id, excludeUserId: Id): Participant {
    if p.conversationId == conversationId && p.userId != excludeUserId
    then p.(unreadCount := p.unreadCount + 1)
    else p
  }

  function Bumper(conversationId: Id, excludeUserId: Id): (f: Participant -> Participant) {
    p => Bump(p, conversationId, excludeUserId)
  }

  /** The participant table after `incrementUnreadCount(conversationId, excludeUserId)`. */
  function Incremented(rows: seq<Participant>, conversationId: Id, excludeUserId: Id): seq<Participant> {
    MapRows(rows, Bumper(conversationId, excludeUserId))
  }

  /** Incrementing bumps each row where it stands and keeps the keys unique. */
  lemma IncrementedAt(rows: seq<Participant>, conversationId: Id, excludeUserId: Id)
    requires KeysUnique(rows)
    ensures |Incremented(rows, conversationId, excludeUserId)| == |rows|
    ensures forall k :: 0 <= k < |rows| ==> Incremented(rows, conversationId, excludeUserId)[k] == Bump(rows[k], conversationId, excludeUserId)
    ensures KeysUnique(Incremented(rows, conversationId, excludeUserId))
  {
    KeysUniqueAfterMap(rows, Bumper(conversationId, excludeUserId));
  }

  /** The fields a keyed update may set; absent fields are left alone. */
  datatype ParticipantPatch = ParticipantPatch(
    unreadCount: Option<nat>,
    lastReadAt: Option<Time>,
    isMuted: Option<bool>)

  function Apply(p: Participant, patch: ParticipantPatch): Participant {
    p.(unreadCount := patch.unreadCount.GetOr(p.unreadCount),
       lastReadAt := if patch.lastReadAt.Some? then patch.lastReadAt else p.lastReadAt,
       isMuted := patch.isMuted.GetOr(p.isMuted))
  }

  function Patcher(userId: Id, conversationId: Id, patch: ParticipantPatch): (f: Participant -> Participant) {
    p => if HasKey(p, userId, conversationId) then Apply(p, patch) else p
  }

  /** The participant table after a keyed update of (userId, conversationId). */
  function Patched(rows: seq<Participant>, userId: Id, conversationId: Id, patch: ParticipantPatch): seq<Participant> {
    MapRows(rows, Patcher(userId, conversationId, patch))
  }

  /** The patch `resetUnreadCount` applies: counter to zero, last read now. */
  function ResetPatch(now: Time): ParticipantPatch {
    ParticipantPatch(Some(0), Some(now), None)
  }

  /** `incrementUnreadCount` adds one to every member of the conversation but
      the excluded user, and changes nothing else. */
  lemma IncrementEffect(rows: seq<Participant>, conversationId: Id, excludeUserId: Id, userId: Id, cid: Id)
    ensures var before := FindByUserAndConversation(rows, userId, cid);
            var after := FindByUserAndConversation(Incremented(rows, conversationId, excludeUserId), userId, cid);
            && after.Some? == before.Some?
            && (after.Some? ==>
                  after.value == before.value.(unreadCount := before.value.unreadCount
                                   + if cid == conversationId && userId != excludeUserId then 1 else 0))
  {
    FindAfterMap(rows, Bumper(conversationId, excludeUserId), userId, cid);
  }

  /** A keyed update changes the fields the patch supplies on that one row and nothing else. */
  lemma PatchEffect(rows: seq<Participant>, userId: Id, conversationId: Id, patch: ParticipantPatch, u: Id, c: Id)
    ensures var before := FindByUserAndConversation(rows, u, c);
            var after := FindByUserAndConversation(Patched(rows, userId, conversationId, patch), u, c);
            && after.Some? == before.Some?
            && (after.Some? ==>
                  after.value == if u == userId && c == conversationId then Apply(before.value, patch) else before.value)
  {
    FindAfterMap(rows, Patcher(userId, conversationId, patch), u, c);
  }

  /** The table without the row of that key. */
  function Removed(rows: seq<Participant>, userId: Id, conversationId: Id): (r: seq<Participant>)
    ensures forall p :: p in r <==> p in rows && !HasKey(p, userId, conversationId)
  {
    if rows == [] then []
    else (if HasKey(rows[0], userId, conversationId) then [] else [rows[0]])
         + Removed(rows[1..], userId, conversationId)
  }

  /** `delete` removes exactly the row of its key. */
  lemma {:induction false} RemoveEffect(rows: seq<Participant>, userId: Id, conversationId: Id, u: Id, c: Id)
    ensures FindByUserAndConversation(Removed(rows, userId, conversationId), u, c)
         == if u == userId && c == conversationId then None else FindByUserAndConversation(rows, u, c)
  {
    if rows != [] {
      var rest := Removed(rows[1..], userId, conversationId);
      RemoveEffect(rows[1..], userId, conversationId, u, c);
      if !HasKey(rows[0], userId, conversationId) {
        assert Removed(rows, userId, conversationId) == [rows[0]] + rest;
        assert ([rows[0]] + rest)[1..] == rest;
      } else {
        assert Removed(rows, userId, conversationId) == rest;
      }
    }
  }

  lemma {:induction false} KeysUniqueAfterRemove(rows: seq<Participant>, userId: Id, conversationId: Id)
    requires KeysUnique(rows)
    ensures KeysUnique(Removed(rows, userId, conversationId))
  {
    if rows != [] {
      KeysUniqueAfterRemove(rows[1..], userId, conversationId);
      var rest := Removed(rows[1..], userId, conversationId);
      if !HasKey(rows[0], userId, conversationId) {
        var r := [rows[0]] + rest;
        forall i, j | 0 <= i < j < |r| ensures !HasKey(r[j], r[i].userId, r[i].conversationId) {
          if i == 0 {
            assert r[j] in rows[1..];
          }
        }
      }
    }
  }

  /** The row `create` inserts, with the column defaults. */
  function NewParticipant(userId: Id, conversationId: Id): Participant {
    Participant(userId, conversationId, 0, None, false)
  }

  class Participants {
    var rows: seq<Participant>

    ghost predicate Valid()
      reads this
    {
      KeysUnique(rows)
    }

    constructor ()
      ensures Valid() && rows == []
    {
      rows := [];
    }

    /** `create`: inserts a new member row, or fails when the key is taken. */
    method Create(userId: Id, conversationId: Id) returns (r: Result<Participant, Error>)
      requires Valid()
      modifies this
      ensures Valid()
      ensures IsParticipant(old(rows), userId, conversationId) ==> r == Failure(UniqueViolation) && rows == old(rows)
      ensures !IsParticipant(old(rows), userId, conversationId) ==>
                r == Success(NewParticipant(userId, conversationId)) && rows == old(rows) + [r.value]
    {
      if IsParticipant(rows, userId, conversationId) {
        return Failure(UniqueViolation);
      }
      var p := NewParticipant(userId, conversationId);
      forall i | 0 <= i < |rows| ensures !HasKey(p, rows[i].userId, rows[i].conversationId) {
        assert rows[i] in rows;
      }
      rows := rows + [p];
      r := Success(p);
    }

    /** `updateByUserAndConversation`: sets the supplied fields of the keyed row. */
    method UpdateByUserAndConversation(userId: Id, conversationId: Id, patch: ParticipantPatch)
      returns (r: Result<Participant, Error>)
      requires Valid()
      modifies this
      ensures Valid()
      ensures !IsParticipant(old(rows), userId, conversationId) ==> r == Failure(RecordNotFound) && rows == old(rows)
      ensures IsParticipant(old(rows), userId, conversationId) ==>
                && r == Success(Apply(FindByUserAndConversation(old(rows), userId, conversationId).value, patch))
                && rows == Patched(old(rows), userId, conversationId, patch)
    {
      var k := 0;
      while k < |rows| && !HasKey(rows[k], userId, conversationId)
        invariant 0 <= k <= |rows|
        invariant forall i :: 0 <= i < k ==> !HasKey(rows[i], userId, conversationId)
      {
        k := k + 1;
      }
      if k == |rows| {
        assert forall p :: p in rows ==> !HasKey(p, userId, conversationId);
        return Failure(RecordNotFound);
      }
      FindAt(rows, k, userId, conversationId);
      var updated := Apply(rows[k], patch);
      PatchedAt(rows, k, userId, conversationId, patch);
      rows := rows[k := updated];
      r := Success(updated);
    }

    /** `resetUnreadCount`: the keyed row's counter becomes 0 and its last-read time `now`. */
    method ResetUnreadCount(userId: Id, conversationId: Id, now: Time) returns (r: Result<Participant, Error>)
      requires Valid()
      modifies this
      ensures Valid()
      ensures !IsParticipant(old(rows), userId, conversationId) ==> r.Failure? && rows == old(rows)
      ensures IsParticipant(old(rows), userId, conversationId) ==>
                && r.Success? && r.value.unreadCount == 0 && r.value.lastReadAt == Some(now)
                && rows == Patched(old(rows), userId, conversationId, ResetPatch(now))
    {
      r := UpdateByUserAndConversation(userId, conversationId, ResetPatch(now));
    }

    /** `incrementUnreadCount`: an `updateMany` over the conversation's rows but the excluded user's. */
    method IncrementUnreadCount(conversationId: Id, excludeUserId: Id)
      requires Valid()
      modifies this
      ensures Valid()
      ensures rows == Incremented(old(rows), conversationId, excludeUserId)
    {
      var i := 0;
      while i < |rows|
        invariant 0 <= i <= |rows| == |old(rows)|
        invariant forall k :: 0 <= k < i ==> rows[k] == Bump(old(rows)[k], conversationId, excludeUserId)
        invariant forall k :: i <= k < |rows| ==> rows[k] == old(rows)[k]
      {
        if rows[i].conversationId == conversationId && rows[i].userId != excludeUserId {
          rows := rows[i := rows[i].(unreadCount := rows[i].unreadCount + 1)];
        }
        i := i + 1;
      }
      IncrementedAt(old(rows), conversationId, excludeUserId);
    }

    /** `delete`: removes the keyed row, or fails when there is none. */
    method Delete(userId: Id, conversationId: Id) returns (r: Result<Participant, Error>)
      requires Valid()
      modifies this
      ensures Valid()
      ensures !IsParticipant(old(rows), userId, conversationId) ==> r == Failure(RecordNotFound) && rows == old(rows)
      ensures IsParticipant(old(rows), userId, conversationId) ==>
                && r == Success(FindByUserAndConversation(old(rows), userId, conversationId).value)
                && rows == Removed(old(rows), userId, conversationId)
    {
      var found := FindByUserAndConversation(rows, userId, conversationId);
      if found.None? {
        return Failure(RecordNotFound);
      }
      KeysUniqueAfterRemove(rows, userId, conversationId);
      rows := Removed(rows, userId, conversationId);
      r := Success(found.value);
    }
  }

  /** Under unique keys, the row at position k is the one the keyed lookup finds. */
  lemma {:induction false} FindAt(rows: seq<Participant>, k: nat, userId: Id, conversationId: Id)
    requires k < |rows| && HasKey(rows[k], userId, conversationId)
    requires forall i :: 0 <= i < k ==> !HasKey(rows[i], userId, conversationId)
    ensures FindByUserAndConversation(rows, userId, conversationId) == Some(rows[k])
  {
    if k > 0 {
      FindAt(rows[1..], k - 1, userId, conversationId);
    }
  }

  /** Under unique keys, the keyed update touches the row at position k and nothing else. */
  lemma PatchedAt(rows: seq<Participant>, k: nat, userId: Id, conversationId: Id, patch: ParticipantPatch)
    requires KeysUnique(rows)
    requires k < |rows| && HasKey(rows[k], userId, conversationId)
    ensures rows[k := Apply(rows[k], patch)] == Patched(rows, userId, conversationId, patch)
    ensures KeysUnique(Patched(rows, userId, conversationId, patch))
  {
    var f := Patcher(userId, conversationId, patch);
    assert KeepsKey(f);
    KeysUniqueAfterMap(rows, f);
    var updated := rows[k := Apply(rows[k], patch)];
    forall i | 0 <= i < |rows| ensures updated[i] == f(rows[i]) {
      if i < k {
        assert !HasKey(rows[i], rows[k].userId, rows[k].conversationId);
      } else if i > k {
        assert !HasKey(rows[i], rows[k].userId, rows[k].conversationId);
      }
    }
  }
}
