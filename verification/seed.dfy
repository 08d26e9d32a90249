/** The database seed: the five default group conversations, each created
    only when no group of that name exists yet. */
module Seed {
  import opened Wrappers
  import opened Entities
  import opened Errors
  import CR = ConversationRepository

  datatype GroupSpec = GroupSpec(name: string, icon: string, iconBg: string, about: string)

  const DefaultGroups: seq<GroupSpec> := [
    GroupSpec("General Chat", "\U{1F4AC}", "bg-gradient-to-br from-blue-400 to-blue-600",
              "General discussions and announcements"),
    GroupSpec("Tech Talk", "\U{1F4BB}", "bg-gradient-to-br from-purple-400 to-purple-600",
              "Technology, programming, and gadgets"),
    GroupSpec("Movie Lounge", "\U{1F3AC}", "bg-gradient-to-br from-red-400 to-red-600",
              "Movies, reviews, and recommendations"),
    GroupSpec("TV & Series Hub", "\U{1F4FA}", "bg-gradient-to-br from-green-400 to-green-600",
              "TV shows and series discussions"),
    GroupSpec("Pop Culture & Gaming", "\U{1F3AE}", "bg-gradient-to-br from-yellow-400 to-orange-500",
              "Gaming, anime, comics, and pop culture")
  ]

  /** `findFirst` over group conversations with that name. */
  function FindGroupByName(rows: seq<Conversation>, name: string): (r: Option<Conversation>)
    ensures r.Some? ==> r.value in rows && r.value.kind == Group && r.value.name == Some(name)
    ensures r.None? ==> forall c :: c in rows ==> !(c.kind == Group && c.name == Some(name))
  {
    if rows == [] then None
    else if rows[0].kind == Group && rows[0].name == Some(name) then Some(rows[0])
    else FindGroupByName(rows[1..], name)
  }

  /** The row the seed creates for `g`. */
  function SeedRow(g: GroupSpec, id: Id, now: Time): Conversation {
    CR.NewConversation(id, Group, Some(g.name), Some(g.icon), Some(g.iconBg), Some(g.about), now)
  }

  /** The table after `groups` are seeded in order, group `k` taking id `ids[k]` if created. */
  function Seeded(rows: seq<Conversation>, groups: seq<GroupSpec>, ids: seq<Id>, now: Time): seq<Conversation>
    requires |ids| == |groups|
  {
    if |groups| == 0 then rows
    else
      var n := |groups| - 1;
      var before := Seeded(rows, groups[..n], ids[..n], now);
      if FindGroupByName(before, groups[n].name).Some? then before else before + [SeedRow(groups[n], ids[n], now)]
  }

  /** Seeding only appends, and only rows made from the listed groups. */
  lemma {:induction false} SeededAppends(rows: seq<Conversation>, groups: seq<GroupSpec>, ids: seq<Id>, now: Time)
    requires |ids| == |groups|
    ensures rows <= Seeded(rows, groups, ids, now)
    ensures forall k :: |rows| <= k < |Seeded(rows, groups, ids, now)| ==>
              exists j :: 0 <= j < |groups| && Seeded(rows, groups, ids, now)[k] == SeedRow(groups[j], ids[j], now)
  {
    if |groups| > 0 {
      var n := |groups| - 1;
      SeededAppends(rows, groups[..n], ids[..n], now);
      var before := Seeded(rows, groups[..n], ids[..n], now);
      var after := Seeded(rows, groups, ids, now);
      forall k | |rows| <= k < |after|
        ensures exists j :: 0 <= j < |groups| && after[k] == SeedRow(groups[j], ids[j], now)
      {
        if k < |before| {
          var j :| 0 <= j < n && before[k] == SeedRow(groups[..n][j], ids[..n][j], now);
          assert after[k] == before[k];
          assert after[k] == SeedRow(groups[j], ids[j], now);
        } else {
          assert after[k] == SeedRow(groups[n], ids[n], now);
        }
      }
    }
  }

  /** One more group: the table either already has a group of its name or gains its row. */
  lemma SeededStep(rows: seq<Conversation>, groups: seq<GroupSpec>, ids: seq<Id>, now: Time, i: nat)
    requires |ids| == |groups| && i < |groups|
    ensures var before := Seeded(rows, groups[..i], ids[..i], now);
            Seeded(rows, groups[..i + 1], ids[..i + 1], now)
            == if FindGroupByName(before, groups[i].name).Some? then before
               else before + [SeedRow(groups[i], ids[i], now)]
  {
    assert groups[..i + 1][..i] == groups[..i];
    assert ids[..i + 1][..i] == ids[..i];
  }

  /** A table holding a group of some name keeps it when rows are appended. */
  lemma GroupStays(rows: seq<Conversation>, extra: seq<Conversation>, name: string)
    requires FindGroupByName(rows, name).Some?
    ensures FindGroupByName(rows + extra, name).Some?
  {
    var c := FindGroupByName(rows, name).value;
    assert c in rows + extra;
  }

  /** After seeding, a group of every listed name exists. */
  lemma SeededHasAll(rows: seq<Conversation>, groups: seq<GroupSpec>, ids: seq<Id>, now: Time)
    requires |ids| == |groups|
    ensures forall g :: g in groups ==> FindGroupByName(Seeded(rows, groups, ids, now), g.name).Some?
  {
    forall g | g in groups
      ensures FindGroupByName(Seeded(rows, groups, ids, now), g.name).Some?
    {
      var j :| 0 <= j < |groups| && groups[j] == g;
      SeededHas(rows, groups, ids, now, j);
    }
  }

  /** After seeding, a group named like the j-th listed one exists. */
  lemma {:induction false} SeededHas(rows: seq<Conversation>, groups: seq<GroupSpec>, ids: seq<Id>, now: Time, j: nat)
    requires |ids| == |groups| && j < |groups|
    ensures FindGroupByName(Seeded(rows, groups, ids, now), groups[j].name).Some?
  {
    var n := |groups| - 1;
    var before := Seeded(rows, groups[..n], ids[..n], now);
    var extra := if FindGroupByName(before, groups[n].name).Some? then [] else [SeedRow(groups[n], ids[n], now)];
    assert Seeded(rows, groups, ids, now) == before + extra;
    if j < n {
      SeededHas(rows, groups[..n], ids[..n], now, j);
      assert groups[..n][j] == groups[j];
      GroupStays(before, extra, groups[j].name);
    } else if FindGroupByName(before, groups[j].name).Some? {
      GroupStays(before, extra, groups[j].name);
    } else {
      assert SeedRow(groups[j], ids[j], now) in before + extra;
    }
  }

  /** Seeding a table that already has every listed group changes nothing. */
  lemma {:induction false} SeedingComplete(rows: seq<Conversation>, groups: seq<GroupSpec>, ids: seq<Id>, now: Time)
    requires |ids| == |groups|
    requires forall g :: g in groups ==> FindGroupByName(rows, g.name).Some?
    ensures Seeded(rows, groups, ids, now) == rows
  {
    if |groups| > 0 {
      var n := |groups| - 1;
      SeedingComplete(rows, groups[..n], ids[..n], now);
      assert groups[n] in groups;
    }
  }

  /** A second seeding run, with whatever ids and clock, creates nothing. */
  lemma SeedIdempotent(rows: seq<Conversation>, ids1: seq<Id>, ids2: seq<Id>, now1: Time, now2: Time)
    requires |ids1| == |ids2| == |DefaultGroups|
    ensures var once := Seeded(rows, DefaultGroups, ids1, now1);
            Seeded(once, DefaultGroups, ids2, now2) == once
  {
    SeededHasAll(rows, DefaultGroups, ids1, now1);
    SeedingComplete(Seeded(rows, DefaultGroups, ids1, now1), DefaultGroups, ids2, now2);
  }

  /** `main`: for each default group in order, look for a group of that
      name and create it when there is none. The ids drawn for new rows are
      `ids`. A key clash aborts the run; rows already written stay. Existing
      rows are never changed. */
  method SeedGroups(convs: CR.Conversations, ids: seq<Id>, now: Time) returns (r: Result<(), Error>)
    requires convs.Valid() && |ids| == |DefaultGroups|
    modifies convs
    ensures convs.Valid()
    ensures old(convs.rows) <= convs.rows
    ensures r.Success? ==> convs.rows == Seeded(old(convs.rows), DefaultGroups, ids, now)
    ensures r.Failure? ==> r.error == UniqueViolation
    ensures CR.Distinct(ids) && (forall id :: id in ids ==> CR.FindById(old(convs.rows), id).None?) ==> r.Success?
  {
    ghost var start := convs.rows;
    for i := 0 to |DefaultGroups|
      invariant convs.Valid()
      invariant start <= convs.rows
      invariant convs.rows == Seeded(start, DefaultGroups[..i], ids[..i], now)
      invariant forall k :: |start| <= k < |convs.rows| ==> convs.rows[k].id in ids[..i]
    {
      var g := DefaultGroups[i];
      SeededStep(start, DefaultGroups, ids, now, i);
      var existing := FindGroupByName(convs.rows, g.name);
      if existing.None? {
        var c := SeedRow(g, ids[i], now);
        var clash := CR.FindById(convs.rows, c.id);
        if clash.Some? {
          ClashNeedsReuse(start, convs.rows, ids, i);
          assert ids[i] in ids;
          return Failure(UniqueViolation);
        }
        AppendFresh(convs.rows, c);
        convs.rows := convs.rows + [c];
      }
    }
    assert DefaultGroups[..|DefaultGroups|] == DefaultGroups;
    assert ids[..|ids|] == ids;
    r := Success(());
  }

  /** A clash on the id of group `i` means that id was in the table before
      the run or was drawn for an earlier group. */
  lemma ClashNeedsReuse(start: seq<Conversation>, rows: seq<Conversation>, ids: seq<Id>, i: nat)
    requires i < |ids| && start <= rows
    requires forall k :: |start| <= k < |rows| ==> rows[k].id in ids[..i]
    requires CR.FindById(rows, ids[i]).Some?
    ensures CR.FindById(start, ids[i]).Some? || ids[i] in ids[..i]
  {
    var c := CR.FindById(rows, ids[i]).value;
    var k :| 0 <= k < |rows| && rows[k] == c;
    if k < |start| {
      assert start[k] == c;
      assert c in start;
    }
  }

  /** Appending a row whose id the table lacks keeps ids distinct. */
  lemma AppendFresh(rows: seq<Conversation>, c: Conversation)
    requires CR.IdsUnique(rows) && CR.FindById(rows, c.id).None?
    ensures CR.IdsUnique(rows + [c])
  {
    var r := rows + [c];
    forall i, j | 0 <= i < j < |r| ensures r[i].id != r[j].id {
      assert r[i] == rows[i];
      if j < |rows| {
        assert r[j] == rows[j];
      } else {
        assert rows[i] in rows;
      }
    }
  }
}
