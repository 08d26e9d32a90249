# Convo chat backend — a Dafny model

This project models the server side of Convo, a real-time chat application
with direct and group conversations. Users sign in with a Google identity
token. They can browse and join public groups, open or start direct
conversations, page through messages newest first, send text or image
messages, mark messages read, and delete messages for themselves or for
everyone. A socket layer tracks who is online and relays typing indicators.

The model follows the backend's layers:

- **Tables.** The four database tables (users, conversations, participants,
  messages) are classes, each holding its rows in a `seq` field. The unique
  keys of each table are a `Valid()` invariant. Reads are functions over the
  rows; writes are methods. A write that would duplicate a key fails with
  the database's unique-violation error. An update or delete that finds no
  row fails with its record-not-found error.
- **Services.** The service operations are methods over those tables (or
  functions, when they only read). Each states, for every branch of the
  source, the result and the new contents of every table it touches.
- **Socket layer.** It is a class: the registry of connected users, the open
  sockets, the rooms, and an outbox of emitted events.
- **Request checks.** The validation middleware groups schema issues by
  path. The error handler shapes replies. The upload filter accepts four
  image MIME types. The request schemas are parsers over a JSON value.
- **Seed.** The seed script creates the five default groups, each only when
  no group of that name exists.

Clocks, randomness, identifiers, the Google verifier, the JWT check and the
image host are parameters: a time `now`, reals in `[0, 1)` for
`Math.random()`, fresh ids, and functions that stand for the external
verdicts.

## Model

| member | source | states |
|---|---|---|
| UserRepository.FindById | backend/src/repositories/user.repository.ts:5 | the row with that id, or none when no row has it |
| UserRepository.FindByEmail | backend/src/repositories/user.repository.ts:7 | the row with that email, or none when no row has it |
| UserRepository.FindByUsername | backend/src/repositories/user.repository.ts:9-10 | the row with that username, or none when no row has it |
| UserRepository.UniqueLookups | backend/src/repositories/user.repository.ts:5-10 | with unique keys, each of the three lookups finds exactly the row holding the key |
| UserRepository.Where | backend/src/repositories/user.repository.ts:14-21 | keeps exactly the rows other than the excluded id whose name or username contains the search, ignoring case, each as often as the table holds it; a falsy exclusion or search filters nothing |
| UserRepository.ByNameIsTotalPreorder | backend/src/repositories/user.repository.ts:23 | ordering by name (code-point lexicographic) is total and transitive, so the sort is well defined |
| UserRepository.FindAll | backend/src/repositories/user.repository.ts:12-24 | the matching rows and only those, each as often as the table holds it, sorted by name ascending (by code point) |
| UserRepository.WithOnlineStatus | backend/src/repositories/user.repository.ts:31-38 | sets the online flag; going offline stamps `lastActive` with now, going online leaves it; no other column changes |
| UserRepository.Replace | backend/src/repositories/user.repository.ts:28-29 | the row with that id is replaced and every other row stays in place |
| UserRepository.ReplaceKeepsKeys | backend/src/repositories/user.repository.ts:28-29 | a replacement that clashes with no other row keeps id, email and username unique |
| UserRepository.Users.Create | backend/src/repositories/user.repository.ts:26 | appends the row, or fails with a unique violation and leaves the table when id, email or username is taken |
| UserRepository.Users.Update | backend/src/repositories/user.repository.ts:28-29 | patches the supplied columns of the row; fails when the id is unknown or the new username or email is taken |
| UserRepository.Users.UpdateOnlineStatus | backend/src/repositories/user.repository.ts:31-38 | stores `WithOnlineStatus` for the row; an unknown id fails and changes nothing |
| ParticipantRepository.FindByUserAndConversation | backend/src/repositories/participant.repository.ts:5-10 | the row under the (user, conversation) key, or none when no row has that key |
| ParticipantRepository.FindByConversation | backend/src/repositories/participant.repository.ts:12-16 | exactly the rows of that conversation |
| ParticipantRepository.FindAfterMap | backend/src/repositories/participant.repository.ts:27-48 | after an update of every row that keeps keys, a key lookup finds the updated form of the row found before |
| ParticipantRepository.KeysUniqueAfterMap | backend/src/repositories/participant.repository.ts:27-48 | an update that keeps keys keeps them unique |
| ParticipantRepository.IncrementEffect | backend/src/repositories/participant.repository.ts:39-48 | the conversation's rows of everyone but the excluded user gain one unread message; every other row is unchanged |
| ParticipantRepository.PatchEffect | backend/src/repositories/participant.repository.ts:27-37 | the keyed row gets the supplied fields; every other key finds what it found before |
| ParticipantRepository.Removed | backend/src/repositories/participant.repository.ts:61-66 | exactly the rows that do not have the key |
| ParticipantRepository.RemoveEffect | backend/src/repositories/participant.repository.ts:61-66 | after the delete the key finds nothing, and every other key finds what it found before |
| ParticipantRepository.KeysUniqueAfterRemove | backend/src/repositories/participant.repository.ts:61-66 | deleting keeps the (user, conversation) keys unique |
| ParticipantRepository.PatchedAt | backend/src/repositories/participant.repository.ts:27-37 | under unique keys the keyed update changes the row at the key's position and nothing else |
| ParticipantRepository.Participants.Create | backend/src/repositories/participant.repository.ts:18-19 | appends a row with zero unread, not muted and never read; fails with a unique violation when the pair already has a row |
| ParticipantRepository.Participants.UpdateByUserAndConversation | backend/src/repositories/participant.repository.ts:27-37 | returns and stores the patched row; an unknown key fails and changes nothing |
| ParticipantRepository.Participants.ResetUnreadCount | backend/src/repositories/participant.repository.ts:50-59 | the keyed row's counter becomes 0 and its last-read time now; an unknown key fails and changes nothing |
| ParticipantRepository.Participants.IncrementUnreadCount | backend/src/repositories/participant.repository.ts:39-48 | the table becomes `Incremented`: the other members' counters go up by one |
| ParticipantRepository.Participants.Delete | backend/src/repositories/participant.repository.ts:61-66 | removes the keyed row and returns it; an unknown key fails and changes nothing |
| MessageRepository.FindById | backend/src/repositories/message.repository.ts:5-9 | the row with that id, or none when no row has it |
| MessageRepository.IndexOfId | backend/src/repositories/message.repository.ts:24-27 | the first position holding that id, or none when no position does |
| MessageRepository.Visible | backend/src/repositories/message.repository.ts:17-20 | exactly the conversation's rows that are not soft-deleted |
| MessageRepository.Ordered | backend/src/repositories/message.repository.ts:17-22 | the same messages as `Visible`, newest first |
| MessageRepository.FindByConversation | backend/src/repositories/message.repository.ts:11-28 | at most `limit + 1` rows, all live messages of the conversation, newest first |
| MessageRepository.PageOfOrdered | backend/src/repositories/message.repository.ts:16-28 | every window of the ordered list holds live messages of the conversation, newest first |
| MessageRepository.CursorPageFollowsCursor | backend/src/repositories/message.repository.ts:23-27 | with a cursor naming a live message, the page is the `limit + 1` messages just after it |
| MessageRepository.NewestHeadsOrdered | backend/src/repositories/message.repository.ts:17-22 | a live message newer than every other message of its conversation comes first in the ordered list |
| MessageRepository.FirstPageIsNewest | backend/src/repositories/message.repository.ts:16-23 | without a cursor the page is the newest `limit + 1` live messages |
| MessageRepository.MarkedReadEffect | backend/src/repositories/message.repository.ts:42-50 | after `markAsRead` no message from another sender in the conversation is still `sent`; the user's own messages and other conversations are untouched; only the status changes |
| MessageRepository.SoftDeleteHides | backend/src/repositories/message.repository.ts:52-59 | a soft-deleted row stays in the table but leaves the live list; the other live messages stay |
| MessageRepository.Messages.Create | backend/src/repositories/message.repository.ts:30-34 | appends the row, or fails with a unique violation when its id is taken |
| MessageRepository.Messages.UpdateStatus | backend/src/repositories/message.repository.ts:36-40 | sets the status of the row with that id; an unknown id fails and changes nothing |
| MessageRepository.Messages.MarkAsRead | backend/src/repositories/message.repository.ts:42-50 | the table becomes `MarkedRead` |
| MessageRepository.Messages.SoftDelete | backend/src/repositories/message.repository.ts:52-59 | stamps `deletedAt` = now and `deletedFor` on the row; an unknown id fails and changes nothing |
| MessageRepository.UniqueMultiplicity | backend/src/repositories/message.repository.ts:5-9 | with distinct ids no message occurs twice |
| MessageRepository.VisibleIdsUnique | backend/src/repositories/message.repository.ts:17-20 | filtering keeps ids distinct |
| MessageRepository.OrderedIdsUnique | backend/src/repositories/message.repository.ts:17-22 | the ordered page source has distinct ids |
| ConversationRepository.MembersOf | backend/src/repositories/conversation.repository.ts:8-12 | every member is a participant row of the conversation joined with its own user row |
| ConversationRepository.MemberPresent | backend/src/repositories/conversation.repository.ts:8-12 | every participant row whose user exists appears among the members |
| ConversationRepository.FindById | backend/src/repositories/conversation.repository.ts:5-7 | the row with that id, or none when no row has it |
| ConversationRepository.FindByIdWithMembers | backend/src/repositories/conversation.repository.ts:5-13 | found exactly when the row exists, with that row as its conversation |
| ConversationRepository.FindDirectConversation | backend/src/repositories/conversation.repository.ts:15-29 | a direct conversation both users belong to, or none when no such conversation exists |
| ConversationRepository.FindDirectConversationSymmetric | backend/src/repositories/conversation.repository.ts:19-22 | the search gives the same answer with the two users swapped |
| ConversationRepository.Memberships | backend/src/repositories/conversation.repository.ts:33-35 | exactly the conversations the user has a participant row in |
| ConversationRepository.Latest | backend/src/repositories/conversation.repository.ts:40-43 | at most one message of the conversation, empty exactly when it has none, and none newer |
| ConversationRepository.UserConversationOrder | backend/src/repositories/conversation.repository.ts:31-46 | the user's conversations and only those, most recently updated first |
| ConversationRepository.FindUserConversations | backend/src/repositories/conversation.repository.ts:31-46 | a summary for every conversation of the user and none for any other, most recently updated first |
| ConversationRepository.UserConversationsOnce | backend/src/repositories/conversation.repository.ts:31-46 | with unique conversation ids no conversation is summarized twice |
| ConversationRepository.MembershipsIdsUnique | backend/src/repositories/conversation.repository.ts:33-35 | the user's conversations keep the table's distinct ids |
| ConversationRepository.UserConversationsSummarized | backend/src/repositories/conversation.repository.ts:36-43 | each summary of the user's conversations carries that conversation's members and newest message |
| ConversationRepository.CallerRows | backend/src/repositories/conversation.repository.ts:55-57 | exactly the caller's participant rows in the group |
| ConversationRepository.FindGroups | backend/src/repositories/conversation.repository.ts:48-62 | every group row, and only those, whose name contains a truthy search, ignoring case |
| ConversationRepository.CallerRowsMeansMember | backend/src/repositories/conversation.repository.ts:55-57 | the caller's row list is non-empty exactly when the caller is a participant |
| ConversationRepository.NewRows | backend/src/repositories/conversation.repository.ts:64-72 | one fresh participant row per member id, in order |
| ConversationRepository.Conversations.Create | backend/src/repositories/conversation.repository.ts:64-72 | stores the conversation and one participant row per member, all or none; a taken id or duplicate member is a unique violation that changes nothing |
| ConversationRepository.Conversations.UpdateTimestamp | backend/src/repositories/conversation.repository.ts:77-81 | sets `updatedAt` of the row to now; an unknown id fails and changes nothing |
| ConversationRepository.TouchedEffect | backend/src/repositories/conversation.repository.ts:77-81 | touching keeps ids unique; only the touched row's `updatedAt` changes |
| ConversationService.GetConversationById | backend/src/services/conversation.service.ts:8-20 | not found exactly when the id is unknown; forbidden exactly when the caller is not among the members; otherwise the conversation with its members |
| ConversationService.OpenIffParticipant | backend/src/services/conversation.service.ts:14-19 | for an existing conversation the caller may open it exactly when they have a participant row |
| ConversationService.ToListItem | backend/src/services/conversation.service.ts:25-60 | the name only for groups; the other member only for direct conversations that have one; the newest message's text, image, time and sender as the preview when there is one; unread 0 without a row of the caller |
| ConversationService.ListItemUnreadCount | backend/src/services/conversation.service.ts:58 | a conversation's item shows the caller's own participant counter, or 0 without a row |
| ConversationService.ListItems | backend/src/services/conversation.service.ts:25-61 | one list item per summary, in the same position: the item built from that summary, so with its id, update time, name, other user, preview and unread count |
| ConversationService.GetUserConversations | backend/src/services/conversation.service.ts:22-62 | the caller's conversation list is most recently updated first |
| ConversationService.UserConversationsOnce | backend/src/services/conversation.service.ts:25 | with unique conversation ids the list has exactly one item per conversation |
| ConversationService.UserConversationsListed | backend/src/services/conversation.service.ts:22-62 | the conversation list holds an item for every conversation of the caller and for no other |
| ConversationService.ItemsCover | backend/src/services/conversation.service.ts:25-61 | items taken position by position from the summaries name exactly the caller's conversations |
| ConversationService.UnreadCountIsCallers | backend/src/services/conversation.service.ts:26 | the member the list item reads its counter from is the caller's own participant row |
| ConversationService.CreateDirectConversation | backend/src/services/conversation.service.ts:64-83 | an unknown other user is not found; an existing direct conversation of the pair is returned with `created = false`; otherwise a new one with both users is stored and returned with `created = true` |
| ConversationService.RepeatFindsExisting | backend/src/services/conversation.service.ts:70-73 | after a direct conversation of the pair was created, asking again finds one |
| ConversationService.MuteConversation | backend/src/services/conversation.service.ts:85-92 | a non-participant is refused and nothing changes; otherwise only the caller's mute flag is written |
| ConversationService.MuteKeepsCounters | backend/src/services/conversation.service.ts:91 | muting changes the mute flag and nothing else of the row |
| MessageService.PageSpec | backend/src/services/message.service.ts:19-31 | a page holds the first `limit` live messages after the cursor, newest first; `hasMore` says exactly whether more remain; the next cursor is the id of the last shown message |
| MessageService.NextPageContinues | backend/src/services/message.service.ts:21-23 | following `nextCursor` continues exactly where the page ended |
| MessageService.Composed | backend/src/services/message.service.ts:45-51 | the new row is `sent`, live and stamped now, and a falsy text or image is stored as null |
| MessageService.SentMessageHeadsFirstPage | backend/src/services/message.service.ts:34-56 | a message sent after every other message of its conversation heads the first page |
| MessageService.GetMessages | backend/src/services/message.service.ts:8-32 | a non-participant is forbidden and nothing changes; otherwise the paginated page, and the caller's counter is reset |
| MessageService.SendMessage | backend/src/services/message.service.ts:34-57 | a non-participant is forbidden and nothing changes; otherwise the message is stored, the conversation is touched and the other members' counters go up |
| MessageService.MarkMessageAsRead | backend/src/services/message.service.ts:59-81 | unknown id: not found; the sender's own message comes back unchanged; a non-participant is forbidden; otherwise the message becomes `read` and the caller's counter is reset |
| MessageService.MarkConversationAsRead | backend/src/services/message.service.ts:83-91 | a non-participant is forbidden; otherwise the others' `sent` messages become `read` and the caller's counter is reset |
| MessageService.DeleteMessage | backend/src/services/message.service.ts:93-111 | unknown id: not found; deleting someone else's message for everyone is forbidden; otherwise the message is soft-deleted with the requested scope |
| MessageService.DeleteForSelfHidesForEveryone | backend/src/services/message.service.ts:107-108 | a message deleted "for self" is missing from every member's pages |
| GroupService.ItemOf | backend/src/services/group.service.ts:14-22 | a missing name shows as "", the count is the participant count, and joined means the caller has a row |
| GroupService.Joined | backend/src/services/group.service.ts:24-25 | only joined items |
| GroupService.Discover | backend/src/services/group.service.ts:26-27 | only items not joined |
| GroupService.PartitionComplete | backend/src/services/group.service.ts:13-29 | the two lists together are a permutation of all the items, so every group lands in exactly one |
| GroupService.GetGroups | backend/src/services/group.service.ts:7-32 | the loop builds exactly `Joined` and `Discover` of the matching groups, each in table order |
| GroupService.JoinedIffMember | backend/src/services/group.service.ts:21-28 | a matching group is in the joined list exactly when the caller has a participant row in it, and otherwise in the discover list |
| GroupService.PublicMembers | backend/src/services/group.service.ts:50-60 | the public profile of each member, in order |
| GroupService.GetGroupDetails | backend/src/services/group.service.ts:34-63 | not found exactly when the id names no group; otherwise the group fields, the member profiles (each a participant of the group) and their count |
| GroupService.MemberCountMatchesRows | backend/src/services/group.service.ts:40-61 | when every participant row has its user, the member count equals the group's participant rows |
| GroupService.JoinGroup | backend/src/services/group.service.ts:65-82 | not a group: not found; already a member: conflict; otherwise a participant row is added and the group returned |
| GroupService.LeaveGroup | backend/src/services/group.service.ts:84-96 | not a group: not found; not a member: forbidden; otherwise the caller's row is removed |
| GroupService.LeaveUndoesJoin | backend/src/services/group.service.ts:76-95 | leaving right after joining restores the participant table |
| AuthService.VerifyGoogleToken | backend/src/services/auth.service.ts:11-32 | fails as unauthorized exactly when verification fails or the email is falsy; otherwise the email, the name (else exactly the part of the email before the first "@") and the picture |
| AuthService.UniqueUsernameFree | backend/src/services/auth.service.ts:34-46 | the search settles on the first untaken candidate, every earlier one being taken, or on `"user" + timestamp` when all are taken |
| AuthService.GenerateUniqueUsername | backend/src/services/auth.service.ts:34-46 | the loop returns the search's answer after at most ten lookups; an early return is untaken |
| AuthService.NewUser | backend/src/services/auth.service.ts:56-63 | the new row's email, name, username and picture come from the sign-in; its initials are generated and its colour is from the palette |
| AuthService.AuthenticateWithGoogle | backend/src/services/auth.service.ts:48-74 | a failed verification changes nothing; a known email is marked online; an unknown one is created with a free username; the token names the user's id and email |
| AuthService.Logout | backend/src/services/auth.service.ts:76-79 | the user is stored offline with `lastActive` = now |
| UserService.GetUserById | backend/src/services/user.service.ts:7-13 | the user with that id, or not found exactly when none exists |
| UserService.GetAllUsers | backend/src/services/user.service.ts:15-17 | exactly the matching users, each as often as the table holds it, sorted by name (by code point) |
| UserService.ProfilePatchEffect | backend/src/services/user.service.ts:27-33 | the supplied fields replace the old ones; a truthy new name also regenerates the initials; nothing else changes |
| UserService.UpdateProfile | backend/src/services/user.service.ts:19-34 | a username held by another user is a conflict and nothing changes; otherwise the patched row is stored |
| UserService.ExtractPublicId | backend/src/services/user.service.ts:55-58 | the capture of the leftmost match of `/v<digits>/<id>.<ext>` at the end, or none exactly when no position matches |
| UserService.SearchFromMeaning | backend/src/services/user.service.ts:56 | the search result is the match at the first matching position, or none when no position matches |
| UserService.ExtractsHostedId | backend/src/services/user.service.ts:55-58 | a delivery URL `<base>/v<version>/<id>.<ext>` yields `<id>` |
| UserService.ImageToDelete | backend/src/services/user.service.ts:42-47 | an image is deleted only for a truthy avatar URL containing "cloudinary" whose public id can be extracted |
| UserService.UpdateAvatar | backend/src/services/user.service.ts:36-53 | an unknown user is not found and nothing changes; otherwise the uploaded URL is stored and returned, and the old hosted image is named for deletion |
| UserService.SetOnlineStatus | backend/src/services/user.service.ts:60-62 | exactly `updateOnlineStatus` |
| Avatar.GenerateInitials | backend/src/utils/avatar.ts:12-18 | at most two characters (with ASCII-only upper-casing) |
| Avatar.WordsOfPadded | backend/src/utils/avatar.ts:13 | trimming and splitting on white-space runs gives back the words of the name |
| Avatar.InitialsOfWords | backend/src/utils/avatar.ts:12-18 | one word gives its first two characters upper-cased; several give the first letters of the first and last word, upper-cased (ASCII letters only) |
| Avatar.GenerateAvatarColor | backend/src/utils/avatar.ts:20-23 | always one of the eight palette colours |
| Avatar.UsernameBase | backend/src/utils/avatar.ts:26-29 | at most 15 lower-case letters and digits, with ASCII-only lower-casing |
| Avatar.UsernameBaseOne | backend/src/utils/avatar.ts:26-29 | one character gives its lower-case form when that is a letter a-z or a digit, and nothing otherwise |
| Avatar.UsernameBaseAppend | backend/src/utils/avatar.ts:26-29 | the base of a concatenation is the two bases joined and cut to 15, so together with UsernameBaseOne it fixes the base of every name: the kept characters in order, first 15 |
| Avatar.UsernameBaseOfLowerAlnum | backend/src/utils/avatar.ts:26-29 | a name of only a-z and digits gives its first 15 characters unchanged |
| Avatar.UsernameBaseCaseInsensitive | backend/src/utils/avatar.ts:27 | lower-casing the name beforehand does not change the base |
| Avatar.GenerateUsername | backend/src/utils/avatar.ts:25-32 | 1 to 18 lower-case letters and digits: the (ASCII-lower-cased) base followed by digits that read back as `floor(random * 1000)` |
| SocketHandlers.RoomsDistinct | backend/src/socket/handlers.ts:35-42 | a user room and a conversation room never share a name |
| SocketHandlers.SocketServer.constructor | backend/src/socket/handlers.ts:12 | starts with no sockets, rooms, registry entries or events |
| SocketHandlers.SocketServer.HandleConnection | backend/src/socket/handlers.ts:14-39 | a missing token, a failing token or an unknown user changes nothing; otherwise the socket is bound and registered, the user stored online, the user room joined and `user:online` sent to every other open socket |
| SocketHandlers.SocketServer.JoinConversation | backend/src/socket/handlers.ts:41-44 | the socket joins the conversation's room; nothing else changes |
| SocketHandlers.SocketServer.LeaveConversation | backend/src/socket/handlers.ts:46-49 | the socket leaves the conversation's room; nothing else changes |
| SocketHandlers.SocketServer.HandleTyping | backend/src/socket/handlers.ts:51-65 | a `typing` event naming the user and the flag goes to the room's other sockets |
| SocketHandlers.SocketServer.Disconnect | backend/src/socket/handlers.ts:67-78 | the socket leaves everything; the user's registry entry is deleted so they are offline; the user is stored offline and the other sockets get `user:offline` with the new `lastActive` |
| SocketHandlers.SocketServer.IsUserOnline | backend/src/socket/handlers.ts:93-95 | online exactly when the registry has an entry for the user, and that entry names an open socket authenticated as the user |
| SocketHandlers.SocketServer.EmitToUser | backend/src/socket/handlers.ts:85-87 | one event to the sockets in the user's room |
| SocketHandlers.SocketServer.EmitToConversation | backend/src/socket/handlers.ts:89-91 | one event to the sockets in the conversation's room |
| SocketHandlers.ReplacedFound | backend/src/socket/handlers.ts:69-74 | after the status update the re-read finds the updated user |
| Validate.GroupedKeys | backend/src/middleware/validate.middleware.ts:15-22 | a key is present exactly when some issue has that joined path |
| Validate.GroupedMessages | backend/src/middleware/validate.middleware.ts:15-22 | each key lists its issues' messages in issue order |
| Validate.GroupedTotal | backend/src/middleware/validate.middleware.ts:15-22 | no message is lost or duplicated: the lists hold one message per issue |
| Validate.TotalAppend | backend/src/middleware/validate.middleware.ts:18-21 | each push adds exactly one message |
| Validate.GroupIssues | backend/src/middleware/validate.middleware.ts:15-22 | the loop's map has exactly the issues' paths as keys, each with its messages in order, one per issue |
| Validate.ValidateRequest | backend/src/middleware/validate.middleware.ts:7-29 | a parse replaces only the target and calls next with no error; issues give a 400 "Validation failed" with the grouped map and change nothing; any other throw is passed on |
| ErrorHandler.MessageOf | backend/src/middleware/errorHandler.middleware.ts:27 | the error's own message, or exactly "Internal server error" when it is empty |
| ErrorHandler.HandleError | backend/src/middleware/errorHandler.middleware.ts:13-47 | validation errors keep status, message and field errors; other application errors keep status and message; anything else is a 500 with the generic message and a stack only in development |
| ErrorHandler.NotFoundHandler | backend/src/middleware/errorHandler.middleware.ts:49-54 | a 404 naming the method and path |
| ErrorHandler.RouteMessageNamesRoute | backend/src/middleware/errorHandler.middleware.ts:52 | the message determines the method and path it names |
| Upload.FileFilter | backend/src/middleware/upload.middleware.ts:9-15 | accepts exactly the four image types; anything else is a 400 with the fixed message |
| MessageSchema.ParseSendMessage | backend/src/schemas/message.schema.ts:3-10 | accepted exactly when both fields are well-typed and one is truthy; text is at most 5000 characters |
| MessageSchema.EmptyMessageRefused | backend/src/schemas/message.schema.ts:8-10 | an empty text alone is refused, reported under the root path |
| MessageSchema.ParseMessageId | backend/src/schemas/message.schema.ts:12-14 | accepted exactly when `id` is a UUID string |
| MessageSchema.ParseDeleteQuery | backend/src/schemas/message.schema.ts:16-18 | `for` must be "self" or "everyone", which map to the two deletion scopes |
| ConversationSchema.ParseCreateConversation | backend/src/schemas/conversation.schema.ts:3-5 | accepted exactly when `userId` is a UUID string |
| ConversationSchema.ParseConversationId | backend/src/schemas/conversation.schema.ts:7-9 | accepted exactly when `id` is a UUID string |
| Text.DigitsValueOfDecimal | backend/src/schemas/conversation.schema.ts:12 | reading back a decimal rendering gives the number |
| ConversationSchema.ParseConversationQuery | backend/src/schemas/conversation.schema.ts:11-14 | accepted exactly for an object with an optional UUID cursor and a limit that is absent or coerces to 1..100; the limit is the coerced value or 50, the cursor is the query's own |
| ConversationSchema.LimitRoundTrip | backend/src/schemas/conversation.schema.ts:12 | a query-string limit `n` is accepted as `n` exactly when 1 ≤ n ≤ 100 |
| ConversationSchema.ParseMute | backend/src/schemas/conversation.schema.ts:16-18 | accepted exactly when `isMuted` is a boolean |
| UserSchema.ParseUpdateProfile | backend/src/schemas/user.schema.ts:3-13 | accepted exactly when every present field is a string meeting its length and character rules; the parsed fields are the body's own strings, absent fields stay absent, and an empty body is accepted |
| UserSchema.GeneratedUsernameMayFailProfileRule | backend/src/schemas/user.schema.ts:5-10 | a generated username such as "0" can break the profile's 3-character minimum |
| UserSchema.ParseUserId | backend/src/schemas/user.schema.ts:15-17 | accepted exactly when `id` is a UUID string |
| UserSchema.ParseSearch | backend/src/schemas/user.schema.ts:19-21 | `search` is optional and must be a string when present; the parsed value is that string |
| UserSchema.ParseGoogleAuth | backend/src/schemas/auth.schema.ts:3-5 | `idToken` must be a non-empty string; the parsed token is that string |
| Seed.FindGroupByName | backend/prisma/seed.ts:42-47 | a group with that name, or none when no group has it |
| Seed.SeededAppends | backend/prisma/seed.ts:41-63 | seeding only appends rows made from the listed groups |
| Seed.SeededHasAll | backend/prisma/seed.ts:41-63 | afterwards a group of every default name exists |
| Seed.SeedingComplete | backend/prisma/seed.ts:49-61 | a table that already has every group is left unchanged |
| Seed.SeedIdempotent | backend/prisma/seed.ts:38-66 | running the seed twice creates nothing the second time |
| Seed.SeedGroups | backend/prisma/seed.ts:38-66 | the loop appends exactly `Seeded` and keeps existing rows; a clash aborts with a unique violation, which cannot happen with fresh distinct ids |

## Left out

- Prisma internals and the transport are not modelled: connection handling, SQL, HTTP and socket framing, JSON serialisation, the logger and request ids. Database constraint failures are modelled as two generic errors: a unique violation and a record not found.
- Repository operations that no core operation calls are left out: participant `createMany` and update by row id, conversation `update` and `delete`, message and user `delete`. The `include: { sender: true }` joins on message reads are left out too, since no modelled caller reads the sender.
- Only `conversations.create` is atomic: it writes the conversation and its participant rows together or not at all. Every other service issues separate writes, and a failure after an earlier write keeps that write, as in the code.
- The async interleaving of handlers is not modelled: each operation runs to completion. So the model has no race between two messages, or between a disconnect and a reconnect of the same user.
- SocketHandlers.SocketServer.HandleConnection: in the code a status update that throws after the registry entry is set leaves the entry behind. The model treats an existing user's update as succeeding.
- The application error classes (backend/src/utils/errors.ts) are not part of this model. Status codes 400/401/403/404/409 are assumed for bad request, unauthorized, forbidden, not found and conflict, with validation errors at 400.
- The Prisma schema is not part of this model. New rows are assumed to default to: not online, unread count 0, never read, not muted, and `updatedAt` equal to `createdAt`.
- The code keeps one socket per user in `connectedUsers`. The model follows the code, so a user's newer socket replaces the older one in the registry, and closing either socket marks the user offline.
- `emitToUser` and `emitToConversation` are modelled, but no core operation calls them; message fan-out to sockets is not part of the code shown.
- Google verification, JWT verification and signing, and the image host (upload and delete) are external. The model passes in their verdicts. The token is modelled by its claims (user id and email).
- UUID and URL syntax are predicates passed to the schema parsers.
- zod's built-in issue texts and paths are not modelled: the parse is an oracle returning issues. Only the refine message of the send-message schema is spelled out.
- Text is `seq<char>`. The code's lengths count UTF-16 units, so zod's `.max` on text with characters outside the Basic Multilingual Plane is modelled per character. Case-insensitive search folds only ASCII letters. `\s` and `trim()` use JavaScript's white-space set.
- ConversationSchema.ParseConversationQuery: the coercion of `limit` accepts JSON numbers and strings of decimal digits (the empty string is 0). Other inputs that `Number()` would accept are rejected: whitespace, signs, exponents, hex, fractions, booleans, null and arrays.
- MessageRepository.FindByConversation: the cursor is located by position in the conversation's live, newest-first list, and a cursor that names no live message of the conversation gives an empty page. Prisma finds the cursor row by id alone, outside the `conversationId` and `deletedAt` filter, and pages on from it with `skip: 1`. So when the cursor message was soft-deleted between two requests, Prisma still returns the next page, one row short, while the model returns an empty page with `hasMore` false. Rows sharing the cursor's `createdAt` are ordered by the database, not by table position.
- UserRepository.FindAll: `orderBy: { name: "asc" }` follows the database collation; the model sorts by code point, so "Bob" comes before "alice" here.
- UserService.GetAllUsers: inherits FindAll's code-point order instead of the database collation.
- Avatar.GenerateInitials: JavaScript's `toUpperCase` maps all of Unicode and may lengthen a string ("ß" becomes "SS"); the model upper-cases ASCII letters only, so its "at most two characters" holds of the model, not of every input to the code.
- Avatar.InitialsOfWords: the chosen characters are upper-cased by ASCII letters only; "élise" gives "éL" here and "ÉL" in the code.
- Avatar.UsernameBase: `toLowerCase` is modelled on ASCII letters only; a character that JavaScript folds into `[a-z]` (the Kelvin sign becomes "k") is dropped here and kept by the code.
- Avatar.GenerateUsername: inherits UsernameBase's ASCII-only lower-casing.
- The seed's console output, process exit and client disconnect are left out. Its ids and clock are parameters.
