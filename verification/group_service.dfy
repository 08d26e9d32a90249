/** The group operations: the caller's joined and discoverable groups,
    the detail page of a group, and joining or leaving one. */
module GroupService {
  import opened Wrappers
  import opened Entities
  import opened Errors
  import PR = ParticipantRepository
  import U = UserRepository
  import CR = ConversationRepository

  /** `GroupListItem`. */
  datatype GroupListItem = GroupListItem(
    id: Id,
    name: string,
    icon: Option<string>,
    iconBg: Option<string>,
    about: Option<string>,
    memberCount: nat,
    isJoined: bool)

  /** The item of one group row: a missing name shows as "", the count is
      the group's total, and the caller has joined when their row list is
      non-empty. */
  function ItemOf(g: CR.GroupRow): (item: GroupListItem)
    ensures item.id == g.conversation.id && item.memberCount == g.participantCount
    ensures item.isJoined <==> |g.callerRows| > 0
    ensures g.conversation.name.Some? ==> item.name == g.conversation.name.value
    ensures g.conversation.name.None? ==> item.name == ""
  {
    var c := g.conversation;
    GroupListItem(c.id, c.name.GetOr(""), c.icon, c.iconBg, c.about, g.participantCount, |g.callerRows| > 0)
  }

  /** The items of the groups the caller belongs to, in order. */
  function Joined(groups: seq<CR.GroupRow>): (r: seq<GroupListItem>)
    ensures forall item :: item in r ==> item.isJoined
  {
    if groups == [] then []
    else (if |groups[0].callerRows| > 0 then [ItemOf(groups[0])] else []) + Joined(groups[1..])
  }

  /** The items of the groups the caller does not belong to, in order. */
  function Discover(groups: seq<CR.GroupRow>): (r: seq<GroupListItem>)
    ensures forall item :: item in r ==> !item.isJoined
  {
    if groups == [] then []
    else (if |groups[0].callerRows| > 0 then [] else [ItemOf(groups[0])]) + Discover(groups[1..])
  }

  /** The item of every group, in order. */
  function AllItems(groups: seq<CR.GroupRow>): (r: seq<GroupListItem>)
    ensures |r| == |groups|
  {
    if groups == [] then [] else [ItemOf(groups[0])] + AllItems(groups[1..])
  }

  /** Every group lands in exactly one of the two lists. */
  lemma {:induction false} PartitionComplete(groups: seq<CR.GroupRow>)
    ensures |Joined(groups)| + |Discover(groups)| == |groups|
    ensures multiset(Joined(groups) + Discover(groups)) == multiset(AllItems(groups))
  {
    PartitionCount(groups);
    PartitionPermutation(groups);
  }

  lemma {:induction false} PartitionCount(groups: seq<CR.GroupRow>)
    ensures |Joined(groups)| + |Discover(groups)| == |groups|
  {
    if groups != [] {
      PartitionCount(groups[1..]);
    }
  }

  lemma {:induction false} PartitionPermutation(groups: seq<CR.GroupRow>)
    ensures multiset(Joined(groups) + Discover(groups)) == multiset(AllItems(groups))
  {
    if groups != [] {
      var x := ItemOf(groups[0]);
      var rest := groups[1..];
      PartitionPermutation(rest);
      var j, d, a := Joined(rest), Discover(rest), AllItems(rest);
      assert AllItems(groups) == [x] + a;
      if |groups[0].callerRows| > 0 {
        assert Joined(groups) == [x] + j;
        assert Discover(groups) == d;
        ConsPermutation(x, j, d, a);
      } else {
        assert Joined(groups) == j;
        assert Discover(groups) == [x] + d;
        MiddlePermutation(x, j, d, a);
      }
    }
  }

  lemma ConsPermutation<T>(x: T, j: seq<T>, d: seq<T>, a: seq<T>)
    requires multiset(j + d) == multiset(a)
    ensures multiset([x] + j + d) == multiset([x] + a)
  {
    assert [x] + j + d == [x] + (j + d);
  }

  lemma MiddlePermutation<T>(x: T, j: seq<T>, d: seq<T>, a: seq<T>)
    requires multiset(j + d) == multiset(a)
    ensures multiset(j + ([x] + d)) == multiset([x] + a)
  {
  }

  /** `getGroups`: splits the matching groups into those the caller belongs
      to and the rest, each in repository order. */
  method GetGroups(rows: seq<Conversation>, parts: seq<Participant>, userId: Id, search: Option<string>)
    returns (joined: seq<GroupListItem>, discover: seq<GroupListItem>)
    ensures joined == Joined(CR.FindGroups(rows, parts, userId, search))
    ensures discover == Discover(CR.FindGroups(rows, parts, userId, search))
  {
    var groups := CR.FindGroups(rows, parts, userId, search);
    joined := [];
    discover := [];
    for i := 0 to |groups|
      invariant joined == Joined(groups[..i])
      invariant discover == Discover(groups[..i])
    {
      var group := groups[i];
      JoinedStep(groups, i);
      DiscoverStep(groups, i);
      if |group.callerRows| > 0 {
        joined := joined + [ItemOf(group)];
      } else {
        discover := discover + [ItemOf(group)];
      }
    }
    assert groups[..|groups|] == groups;
  }

  /** Extending the processed prefix by one group extends the joined list by its item, if joined. */
  lemma JoinedStep(groups: seq<CR.GroupRow>, i: nat)
    requires i < |groups|
    ensures Joined(groups[..i + 1]) == Joined(groups[..i]) + (if |groups[i].callerRows| > 0 then [ItemOf(groups[i])] else [])
  {
    assert groups[..i + 1] == groups[..i] + [groups[i]];
    JoinedSnoc(groups[..i], groups[i]);
  }

  lemma DiscoverStep(groups: seq<CR.GroupRow>, i: nat)
    requires i < |groups|
    ensures Discover(groups[..i + 1]) == Discover(groups[..i]) + (if |groups[i].callerRows| > 0 then [] else [ItemOf(groups[i])])
  {
    assert groups[..i + 1] == groups[..i] + [groups[i]];
    DiscoverSnoc(groups[..i], groups[i]);
  }

  lemma {:induction false} JoinedSnoc(groups: seq<CR.GroupRow>, g: CR.GroupRow)
    ensures Joined(groups + [g]) == Joined(groups) + (if |g.callerRows| > 0 then [ItemOf(g)] else [])
  {
    if groups == [] {
      assert groups + [g] == [g];
      assert Joined([g]) == (if |g.callerRows| > 0 then [ItemOf(g)] else []) + Joined([]);
    } else {
      var h := groups[0];
      JoinedSnoc(groups[1..], g);
      assert (groups + [g])[0] == h;
      assert (groups + [g])[1..] == groups[1..] + [g];
    }
  }

  lemma {:induction false} DiscoverSnoc(groups: seq<CR.GroupRow>, g: CR.GroupRow)
    ensures Discover(groups + [g]) == Discover(groups) + (if |g.callerRows| > 0 then [] else [ItemOf(g)])
  {
    if groups == [] {
      assert groups + [g] == [g];
      assert Discover([g]) == (if |g.callerRows| > 0 then [] else [ItemOf(g)]) + Discover([]);
    } else {
      var h := groups[0];
      DiscoverSnoc(groups[1..], g);
      assert (groups + [g])[0] == h;
      assert (groups + [g])[1..] == groups[1..] + [g];
    }
  }

  /** A matching group is listed as joined exactly when the caller has a participant row in it. */
  lemma JoinedIffMember(rows: seq<Conversation>, parts: seq<Participant>, userId: Id, search: Option<string>, c: Conversation)
    requires c in rows && CR.GroupMatches(c, search)
    ensures var groups := CR.FindGroups(rows, parts, userId, search);
            var item := ItemOf(CR.ToGroupRow(c, parts, userId));
            && (PR.IsParticipant(parts, userId, c.id) ==> item in Joined(groups))
            && (!PR.IsParticipant(parts, userId, c.id) ==> item in Discover(groups))
  {
    var groups := CR.FindGroups(rows, parts, userId, search);
    var g :| g in groups && g.conversation == c;
    CR.CallerRowsMeansMember(parts, userId, c.id);
    InLists(groups, g);
  }

  lemma {:induction false} InLists(groups: seq<CR.GroupRow>, g: CR.GroupRow)
    requires g in groups
    ensures |g.callerRows| > 0 ==> ItemOf(g) in Joined(groups)
    ensures |g.callerRows| == 0 ==> ItemOf(g) in Discover(groups)
  {
    if groups[0] != g {
      InLists(groups[1..], g);
    }
  }

  /** The group fields of the detail page. */
  datatype GroupInfo = GroupInfo(id: Id, name: Option<string>, icon: Option<string>, iconBg: Option<string>, about: Option<string>)

  datatype GroupDetails = GroupDetails(group: GroupInfo, members: seq<UserPublic>, memberCount: nat)

  /** An id that names no conversation, or a direct one, is "not found" to the group operations. */
  predicate IsGroup(rows: seq<Conversation>, groupId: Id) {
    CR.FindById(rows, groupId).Some? && CR.FindById(rows, groupId).value.kind == Group
  }

  function PublicMembers(members: seq<CR.Member>): (r: seq<UserPublic>)
    ensures |r| == |members|
    ensures forall k :: 0 <= k < |r| ==> r[k] == PublicOf(members[k].user)
  {
    seq(|members|, k requires 0 <= k < |members| => PublicOf(members[k].user))
  }

  /** `getGroupDetails`: not found unless the id names a group; otherwise the
      group, its members' public profiles and how many there are. */
  function GetGroupDetails(rows: seq<Conversation>, parts: seq<Participant>, users: seq<User>, groupId: Id)
    : (r: Result<GroupDetails, Error>)
    ensures !IsGroup(rows, groupId) <==> r == Failure(NotFoundError("Group not found"))
    ensures r.Success? ==> r.value.memberCount == |r.value.members| && r.value.group.id == groupId
    ensures r.Success? ==> forall u :: u in r.value.members ==>
              exists p :: p in parts && p.conversationId == groupId && p.userId == u.id
  {
    if !IsGroup(rows, groupId) then Failure(NotFoundError("Group not found"))
    else
      var g := CR.FindById(rows, groupId).value;
      var members := CR.MembersOf(parts, users, groupId);
      var profiles := PublicMembers(members);
      forall u | u in profiles ensures exists p :: p in parts && p.conversationId == groupId && p.userId == u.id {
        var k :| 0 <= k < |profiles| && profiles[k] == u;
        assert members[k] in members;
      }
      Success(GroupDetails(GroupInfo(g.id, g.name, g.icon, g.iconBg, g.about), profiles, |members|))
  }

  /** When every participant row has its user, the detail page counts the
      same members as the group list's participant count. */
  lemma {:induction false} MemberCountMatchesRows(parts: seq<Participant>, users: seq<User>, groupId: Id)
    requires forall p :: p in parts ==> U.FindById(users, p.userId).Some?
    ensures |CR.MembersOf(parts, users, groupId)| == |PR.FindByConversation(parts, groupId)|
  {
    if parts != [] {
      MemberCountMatchesRows(parts[1..], users, groupId);
      assert parts[0] in parts;
      OfConversationStep(parts, groupId);
    }
  }

  lemma OfConversationStep(parts: seq<Participant>, groupId: Id)
    requires parts != []
    ensures |PR.FindByConversation(parts, groupId)|
         == |PR.FindByConversation(parts[1..], groupId)| + (if parts[0].conversationId == groupId then 1 else 0)
  {
  }

  /** `joinGroup`: not found unless the id names a group; an existing member
      gets a conflict; otherwise exactly one participant row is added. The
      group comes back with its members as they were before the join. */
  method JoinGroup(rows: seq<Conversation>, parts: PR.Participants, users: seq<User>, groupId: Id, userId: Id)
    returns (r: Result<CR.ConversationDetails, Error>)
    requires parts.Valid()
    modifies parts
    ensures parts.Valid()
    ensures !IsGroup(rows, groupId) ==> r == Failure(NotFoundError("Group not found")) && parts.rows == old(parts.rows)
    ensures IsGroup(rows, groupId) && PR.IsParticipant(old(parts.rows), userId, groupId) ==>
              r == Failure(ConflictError("Already a member of this group")) && parts.rows == old(parts.rows)
    ensures IsGroup(rows, groupId) && !PR.IsParticipant(old(parts.rows), userId, groupId) ==>
              && r == Success(CR.ConversationDetails(CR.FindById(rows, groupId).value, CR.MembersOf(old(parts.rows), users, groupId)))
              && parts.rows == old(parts.rows) + [PR.NewParticipant(userId, groupId)]
  {
    if !IsGroup(rows, groupId) {
      return Failure(NotFoundError("Group not found"));
    }
    var group := CR.ConversationDetails(CR.FindById(rows, groupId).value, CR.MembersOf(parts.rows, users, groupId));
    if PR.IsParticipant(parts.rows, userId, groupId) {
      return Failure(ConflictError("Already a member of this group"));
    }
    var _ := parts.Create(userId, groupId);
    r := Success(group);
  }

  /** `leaveGroup`: not found unless the id names a group; a non-member is
      refused; otherwise the caller's row is deleted. */
  method LeaveGroup(rows: seq<Conversation>, parts: PR.Participants, groupId: Id, userId: Id)
    returns (r: Result<(), Error>)
    requires parts.Valid()
    modifies parts
    ensures parts.Valid()
    ensures !IsGroup(rows, groupId) ==> r == Failure(NotFoundError("Group not found")) && parts.rows == old(parts.rows)
    ensures IsGroup(rows, groupId) && !PR.IsParticipant(old(parts.rows), userId, groupId) ==>
              r == Failure(ForbiddenError("Not a member of this group")) && parts.rows == old(parts.rows)
    ensures IsGroup(rows, groupId) && PR.IsParticipant(old(parts.rows), userId, groupId) ==>
              r == Success(()) && parts.rows == PR.Removed(old(parts.rows), userId, groupId)
  {
    if !IsGroup(rows, groupId) {
      return Failure(NotFoundError("Group not found"));
    }
    if !PR.IsParticipant(parts.rows, userId, groupId) {
      return Failure(ForbiddenError("Not a member of this group"));
    }
    var _ := parts.Delete(userId, groupId);
    r := Success(());
  }

  /** Leaving undoes joining: the participant table is as it was before. */
  lemma {:induction false} LeaveUndoesJoin(rows: seq<Participant>, userId: Id, groupId: Id)
    requires !PR.IsParticipant(rows, userId, groupId)
    ensures PR.Removed(rows + [PR.NewParticipant(userId, groupId)], userId, groupId) == rows
  {
    if rows == [] {
      assert [PR.NewParticipant(userId, groupId)][1..] == [];
    } else {
      assert rows[0] in rows;
      assert !PR.IsParticipant(rows[1..], userId, groupId);
      LeaveUndoesJoin(rows[1..], userId, groupId);
      assert (rows + [PR.NewParticipant(userId, groupId)])[1..] == rows[1..] + [PR.NewParticipant(userId, groupId)];
    }
  }
}
