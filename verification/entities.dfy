/** The rows of the relational store: users, conversations, their
    participants and messages.  Identifiers are the database's generated
    UUID strings and times are clock readings in milliseconds. */
module Entities {
  import opened Wrappers

  type Id = string
  type Time = int

  datatype ConversationType = Direct | Group
  datatype MessageStatus = Sent | Read
  /** The `deletedFor` column: the values "self" and "everyone". */
  datatype DeletedFor = ForSelf | ForEveryone

  datatype User = User(
    id: Id,
    email: string,
    name: string,
    username: string,
    initials: string,
    avatarColor: string,
    avatarUrl: Option<string>,
    bio: Option<string>,
    phoneNumber: Option<string>,
    isOnline: bool,
    lastActive: Option<Time>)

  /** A conversation row; `kind` is the `type` column. */
  datatype Conversation = Conversation(
    id: Id,
    kind: ConversationType,
    name: Option<string>,
    icon: Option<string>,
    iconBg: Option<string>,
    about: Option<string>,
    createdAt: Time,
    updatedAt: Time)

  /** A participant row, keyed by the pair (userId, conversationId). */
  datatype Participant = Participant(
    userId: Id,
    conversationId: Id,
    unreadCount: nat,
    lastReadAt: Option<Time>,
    isMuted: bool)

  datatype Message = Message(
    id: Id,
    conversationId: Id,
    senderId: Id,
    text: Option<string>,
    imageUrl: Option<string>,
    status: MessageStatus,
    createdAt: Time,
    deletedAt: Option<Time>,
    deletedFor: Option<DeletedFor>)

  /** The public projection of a user (`UserPublic`): every column but the email and the phone number. */
  datatype UserPublic = UserPublic(
    id: Id,
    name: string,
    initials: string,
    avatarColor: string,
    avatarUrl: Option<string>,
    bio: Option<string>,
    username: string,
    isOnline: bool,
    lastActive: Option<Time>)

  function PublicOf(u: User): UserPublic {
    UserPublic(u.id, u.name, u.initials, u.avatarColor, u.avatarUrl, u.bio, u.username, u.isOnline, u.lastActive)
  }

  /** JavaScript truthiness of an optional string: present and non-empty. */
  predicate Truthy(s: Option<string>) { s.Some? && s.value != "" }

  /** `s || null`: a falsy string becomes null. */
  function OrNull(s: Option<string>): (r: Option<string>)
    ensures r.Some? <==> Truthy(s)
    ensures r.Some? ==> r == s
  {
    if Truthy(s) then s else None
  }
}
