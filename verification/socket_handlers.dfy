/** The real-time layer: the handshake that binds a socket to a user, the
    per-socket handlers for rooms, typing and disconnect, and the fan-out
    helpers. The transport is modelled by the set of open sockets, the room
    memberships and a log of emissions with their recipient sockets. */
module SocketHandlers {
  import opened Wrappers
  import opened Entities
  import opened Errors
  import U = UserRepository
  import UserService

  type SocketId = string

  /** The payloads of the events this layer emits; `Other` is a payload a
      caller of the fan-out helpers supplies. */
  datatype Payload =
    | Online(userId: Id)
    | Offline(userId: Id, lastActive: Option<Time>)
    | Typing(conversationId: Id, userId: Id, isTyping: bool)
    | Other(body: string)

  /** One `emit`: the sockets it reaches, the event name and the payload. */
  datatype Emission = Emission(recipients: set<SocketId>, event: string, payload: Payload)

  function UserRoom(userId: Id): string { "user:" + userId }
  function ConversationRoom(conversationId: Id): string { "conversation:" + conversationId }

  /** A user's room and a conversation's room never share a name. */
  lemma {:induction false} RoomsDistinct(userId: Id, conversationId: Id)
    ensures UserRoom(userId) != ConversationRoom(conversationId)
  {
    assert UserRoom(userId)[0] == 'u';
    assert ConversationRoom(conversationId)[0] == 'c';
  }

  /** The members of a room; a room nobody joined is empty. */
  function Members(rooms: map<string, set<SocketId>>, room: string): set<SocketId> {
    if room in rooms then rooms[room] else {}
  }

  class SocketServer {
    /** `connectedUsers`: at most one socket per user, the latest to connect. */
    var connectedUsers: map<Id, SocketId>
    /** The open sockets. */
    var sockets: set<SocketId>
    /** The user each authenticated socket belongs to (`socket.userId`). */
    var socketUser: map<SocketId, Id>
    var rooms: map<string, set<SocketId>>
    /** Every emission so far, oldest first. */
    var outbox: seq<Emission>

    ghost predicate Valid()
      reads this
    {
      && socketUser.Keys <= sockets
      && (forall room :: room in rooms ==> rooms[room] <= sockets)
      && (forall u :: u in connectedUsers ==> connectedUsers[u] in socketUser && socketUser[connectedUsers[u]] == u)
    }

    constructor ()
      ensures Valid()
      ensures connectedUsers == map[] && sockets == {} && socketUser == map[] && rooms == map[] && outbox == []
    {
      connectedUsers := map[];
      sockets := {};
      socketUser := map[];
      rooms := map[];
      outbox := [];
    }

    /** `isUserOnline`: whether the registry has an entry for the user; an
        online user's entry names an open socket authenticated as that user. */
    predicate IsUserOnline(userId: Id): (online: bool)
      requires Valid()
      reads this
      ensures online <==> userId in connectedUsers
      ensures online ==> connectedUsers[userId] in sockets && socketUser[connectedUsers[userId]] == userId
    {
      userId in connectedUsers
    }

    /** `handleConnection` for a newly opened socket `sid` whose handshake
        carries `token`; `verify` is the token check (the user id it vouches
        for, or `None` when it throws). A missing or empty token, a token
        that fails, or one naming an unknown user closes the socket and
        changes nothing else. Otherwise the socket is bound to the user, the
        registry maps the user to it (replacing any earlier socket), the user
        is stored online, the socket joins the user's room and every other
        open socket is told `user:online`. */
    method HandleConnection(sid: SocketId, token: Option<string>, verify: string -> Option<Id>, users: U.Users, now: Time)
      requires Valid() && users.Valid()
      requires sid !in sockets
      modifies this, users
      ensures Valid() && users.Valid()
      ensures var claimed := if Truthy(token) then verify(token.value) else None;
              if claimed.None? || U.FindById(old(users.rows), claimed.value).None? then
                && sockets == old(sockets) && connectedUsers == old(connectedUsers) && rooms == old(rooms)
                && socketUser == old(socketUser) && outbox == old(outbox) && users.rows == old(users.rows)
              else
                var u := U.FindById(old(users.rows), claimed.value).value;
                && sockets == old(sockets) + {sid}
                && socketUser == old(socketUser)[sid := u.id]
                && connectedUsers == old(connectedUsers)[u.id := sid]
                && IsUserOnline(u.id)
                && users.rows == U.Replace(old(users.rows), u.id, U.WithOnlineStatus(u, true, now))
                && rooms == old(rooms)[UserRoom(u.id) := Members(old(rooms), UserRoom(u.id)) + {sid}]
                && outbox == old(outbox) + [Emission(old(sockets), "user:online", Online(u.id))]
    {
      if !Truthy(token) {
        return;
      }
      var claimed := verify(token.value);
      if claimed.None? {
        return;
      }
      var found := U.FindById(users.rows, claimed.value);
      if found.None? {
        return;
      }
      var user := found.value;
      sockets := sockets + {sid};
      socketUser := socketUser[sid := user.id];
      connectedUsers := connectedUsers[user.id := sid];
      var _ := UserService.SetOnlineStatus(users, user.id, true, now);
      rooms := rooms[UserRoom(user.id) := Members(rooms, UserRoom(user.id)) + {sid}];
      outbox := outbox + [Emission(sockets - {sid}, "user:online", Online(user.id))];
    }

    /** `conversation:join`: this socket, and only it, enters the conversation's room. */
    method JoinConversation(sid: SocketId, conversationId: Id)
      requires Valid() && sid in socketUser
      modifies this
      ensures Valid()
      ensures rooms == old(rooms)[ConversationRoom(conversationId) := Members(old(rooms), ConversationRoom(conversationId)) + {sid}]
      ensures connectedUsers == old(connectedUsers) && sockets == old(sockets) && socketUser == old(socketUser) && outbox == old(outbox)
    {
      var room := ConversationRoom(conversationId);
      rooms := rooms[room := Members(rooms, room) + {sid}];
    }

    /** `conversation:leave`: this socket, and only it, leaves the conversation's room. */
    method LeaveConversation(sid: SocketId, conversationId: Id)
      requires Valid() && sid in socketUser
      modifies this
      ensures Valid()
      ensures var room := ConversationRoom(conversationId);
              rooms == if room in old(rooms) then old(rooms)[room := old(rooms)[room] - {sid}] else old(rooms)
      ensures connectedUsers == old(connectedUsers) && sockets == old(sockets) && socketUser == old(socketUser) && outbox == old(outbox)
    {
      var room := ConversationRoom(conversationId);
      if room in rooms {
        rooms := rooms[room := rooms[room] - {sid}];
      }
    }

    /** `typing:start` / `typing:stop`: the conversation's room, less the
        sender's socket, is told who is typing; nothing is stored. */
    method HandleTyping(sid: SocketId, conversationId: Id, isTyping: bool)
      requires Valid() && sid in socketUser
      modifies this
      ensures Valid()
      ensures outbox == old(outbox) + [Emission(Members(old(rooms), ConversationRoom(conversationId)) - {sid}, "typing",
                                                Typing(conversationId, old(socketUser)[sid], isTyping))]
      ensures connectedUsers == old(connectedUsers) && sockets == old(sockets) && socketUser == old(socketUser) && rooms == old(rooms)
    {
      var recipients := Members(rooms, ConversationRoom(conversationId)) - {sid};
      outbox := outbox + [Emission(recipients, "typing", Typing(conversationId, socketUser[sid], isTyping))];
    }

    /** `disconnect` of an authenticated socket: the transport closes it and
        drops it from every room; the handler then deletes the user's
        registry entry (whichever socket it names), stores the user offline
        and tells the other open sockets `user:offline` with the `lastActive`
        just written. If the user row is gone, the store fails and nothing is
        emitted. */
    method Disconnect(sid: SocketId, users: U.Users, now: Time)
      requires Valid() && users.Valid() && sid in socketUser
      modifies this, users
      ensures Valid() && users.Valid()
      ensures var u := old(socketUser)[sid];
              && sockets == old(sockets) - {sid}
              && socketUser == old(socketUser) - {sid}
              && rooms == (map room | room in old(rooms) :: old(rooms)[room] - {sid})
              && connectedUsers == old(connectedUsers) - {u}
              && !IsUserOnline(u)
              && (U.FindById(old(users.rows), u).None? ==> outbox == old(outbox) && users.rows == old(users.rows))
              && (U.FindById(old(users.rows), u).Some? ==>
                    && users.rows == U.Replace(old(users.rows), u, U.WithOnlineStatus(U.FindById(old(users.rows), u).value, false, now))
                    && outbox == old(outbox) + [Emission(old(sockets) - {sid}, "user:offline", Offline(u, Some(now)))])
    {
      var u := socketUser[sid];
      sockets := sockets - {sid};
      socketUser := socketUser - {sid};
      rooms := map room | room in rooms :: rooms[room] - {sid};
      connectedUsers := connectedUsers - {u};
      var stored := UserService.SetOnlineStatus(users, u, false, now);
      if stored.Failure? {
        return;
      }
      ReplacedFound(old(users.rows), u, stored.value);
      var updatedUser := U.FindById(users.rows, u);
      var lastActive := if updatedUser.Some? then updatedUser.value.lastActive else None;
      outbox := outbox + [Emission(sockets, "user:offline", Offline(u, lastActive))];
    }

    /** `emitToUser`: the event reaches every socket in the user's room. */
    method EmitToUser(userId: Id, event: string, data: Payload)
      requires Valid()
      modifies this
      ensures Valid()
      ensures outbox == old(outbox) + [Emission(Members(old(rooms), UserRoom(userId)), event, data)]
      ensures connectedUsers == old(connectedUsers) && sockets == old(sockets) && socketUser == old(socketUser) && rooms == old(rooms)
    {
      outbox := outbox + [Emission(Members(rooms, UserRoom(userId)), event, data)];
    }

    /** `emitToConversation`: the event reaches every socket in the conversation's room. */
    method EmitToConversation(conversationId: Id, event: string, data: Payload)
      requires Valid()
      modifies this
      ensures Valid()
      ensures outbox == old(outbox) + [Emission(Members(old(rooms), ConversationRoom(conversationId)), event, data)]
      ensures connectedUsers == old(connectedUsers) && sockets == old(sockets) && socketUser == old(socketUser) && rooms == old(rooms)
    {
      outbox := outbox + [Emission(Members(rooms, ConversationRoom(conversationId)), event, data)];
    }
  }

  /** After the row of `id` is replaced by `v` (same id), looking `id` up finds `v`. */
  lemma ReplacedFound(rows: seq<User>, id: Id, v: User)
    requires v.id == id && U.FindById(rows, id).Some?
    ensures U.FindById(U.Replace(rows, id, v), id) == Some(v)
  {
    var r := U.Replace(rows, id, v);
    var k :| 0 <= k < |rows| && rows[k] == U.FindById(rows, id).value;
    assert r[k] == v;
    var f := U.FindById(r, id);
    var j :| 0 <= j < |r| && r[j] == f.value;
  }
}
