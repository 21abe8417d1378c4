/** Group membership administration: changing a member's role, removing a
    member, and the two member listings.  The `q` search filter of the
    listings is the `search` parameter. */
module GroupMemberController {
  import opened Tables
  import opened Schema
  import GroupPolicy

  /** The first membership row of `target` in the group; a negative id matches nothing. */
  function TargetRow(members: Table<Member>, groupId: nat, target: int): (r: Option<nat>)
    requires members.Valid()
    ensures r.None? <==> target < 0 || forall k :: k in members.rows ==> !MemberOf(groupId, target)(members.rows[k])
    ensures r.Some? ==>
              target >= 0 && r.value in members.rows &&
              members.rows[r.value].groupId == groupId && members.rows[r.value].userId == target
    ensures r.Some? ==> forall k :: k in members.rows && k < r.value ==> !MemberOf(groupId, target)(members.rows[k])
  {
    if target < 0 then None
    else
      var r := members.First(MemberOf(groupId, target));
      assert r.Some? ==> MemberOf(groupId, target)(members.rows[r.value]);
      r
  }

  /** `update`: group exists (404), `update_member` gate (403, or an error
      when the actor has no row), validation (400), not the actor itself
      (403), target row exists (400), a non-admin actor cannot touch an
      "admin" row (403); then that row's role becomes the requested string. */
  method Update(db: Database, actor: nat, id: nat, targetId: Option<int>, role: string) returns (out: Outcome)
    requires db.Valid() && actor in db.users.rows
    modifies db`members
    ensures db.Valid()
    ensures out ==
      if id !in db.groups.rows then Code(404)
      else if GroupPolicy.UpdateMember(db.users.rows[actor], actor, old(db.members), id).Failed? then Crash
      else if GroupPolicy.UpdateMember(db.users.rows[actor], actor, old(db.members), id).Denied? then Code(403)
      else if targetId.None? || role == "" then Code(400)
      else if targetId.value == actor then Code(403)
      else if TargetRow(old(db.members), id, targetId.value).None? then Code(400)
      else if db.users.rows[actor].role != ADMIN &&
              old(db.members.rows[TargetRow(db.members, id, targetId.value).value]).role == ADMIN then Code(403)
      else Code(200)
    ensures out == Code(200) ==>
      var k := TargetRow(old(db.members), id, targetId.value).value;
      db.members == old(db.members).Put(k, old(db.members.rows[k]).(role := role))
    ensures out == Code(200) ==> forall k :: k in old(db.members.rows) && old(db.members.rows[k]).userId == actor ==>
              k in db.members.rows && db.members.rows[k] == old(db.members.rows[k])
    ensures out != Code(200) ==> db.members == old(db.members)
  {
    if id !in db.groups.rows {
      return Code(404);
    }
    var user := db.users.rows[actor];
    var gate := GroupPolicy.UpdateMember(user, actor, db.members, id);
    if gate.Failed? {
      return Crash;
    }
    if gate.Denied? {
      return Code(403);
    }
    if targetId.None? || role == "" {
      return Code(400);
    }
    if targetId.value == actor {
      return Code(403);
    }
    var row := TargetRow(db.members, id, targetId.value);
    if row.None? {
      return Code(400);
    }
    var m := db.members.rows[row.value];
    if user.role != ADMIN && m.role == ADMIN {
      return Code(403);
    }
    db.SetMembers(db.members.Put(row.value, m.(role := role)));
    out := Code(200);
  }

  /** `destroy`: the same first checks as `update`; a non-admin actor cannot
      remove another "admin" row but may remove its own; then the target's
      first row is deleted. */
  method Destroy(db: Database, actor: nat, id: nat, targetId: Option<int>) returns (out: Outcome)
    requires db.Valid() && actor in db.users.rows
    modifies db`members
    ensures db.Valid()
    ensures out ==
      if id !in db.groups.rows then Code(404)
      else if GroupPolicy.UpdateMember(db.users.rows[actor], actor, old(db.members), id).Failed? then Crash
      else if GroupPolicy.UpdateMember(db.users.rows[actor], actor, old(db.members), id).Denied? then Code(403)
      else if targetId.None? then Code(400)
      else if TargetRow(old(db.members), id, targetId.value).None? then Code(400)
      else if db.users.rows[actor].role != ADMIN &&
              old(db.members.rows[TargetRow(db.members, id, targetId.value).value]).role == ADMIN &&
              targetId.value != actor then Code(403)
      else Code(200)
    ensures out == Code(200) ==>
      db.members == old(db.members).Delete(TargetRow(old(db.members), id, targetId.value).value)
    ensures out != Code(200) ==> db.members == old(db.members)
    ensures id in db.groups.rows && targetId == Some(actor as int) &&
            GroupPolicy.UpdateMember(db.users.rows[actor], actor, old(db.members), id) == GroupPolicy.Allowed ==>
              out == Code(200)
  {
    if id !in db.groups.rows {
      return Code(404);
    }
    var user := db.users.rows[actor];
    var gate := GroupPolicy.UpdateMember(user, actor, db.members, id);
    if gate.Failed? {
      return Crash;
    }
    if gate.Denied? {
      return Code(403);
    }
    if targetId.None? {
      return Code(400);
    }
    var row := TargetRow(db.members, id, targetId.value);
    if row.None? {
      return Code(400);
    }
    if user.role != ADMIN && db.members.rows[row.value].role == ADMIN && targetId.value != actor {
      return Code(403);
    }
    db.SetMembers(db.members.Delete(row.value));
    out := Code(200);
  }

  /** A user `getNotMembers` may list: exists, matches the search and has no
      membership row in the group. */
  ghost predicate Eligible(users: Table<User>, members: Table<Member>, groupId: nat, search: User -> bool, u: nat)
  {
    u in users.rows && search(users.rows[u]) &&
    forall k :: k in members.rows ==> !MemberOf(groupId, u)(members.rows[k])
  }

  /** The ids of the eligible users in table order. */
  function EligibleIds(users: Table<User>, members: Table<Member>, groupId: nat, search: User -> bool): (r: seq<nat>)
    requires users.Valid()
    ensures forall u :: u in r <==> Eligible(users, members, groupId, search, u)
    ensures Increasing(r)
  {
    var memberIds := set k | k in members.rows && members.rows[k].groupId == groupId :: members.rows[k].userId;
    assert forall u :: u in memberIds <==> exists k :: k in members.rows && MemberOf(groupId, u)(members.rows[k]) by {
      forall u ensures u in memberIds ==> exists k :: k in members.rows && MemberOf(groupId, u)(members.rows[k]) {
        if u in memberIds {
          var k :| k in members.rows && members.rows[k].groupId == groupId && members.rows[k].userId == u;
          assert MemberOf(groupId, u)(members.rows[k]);
        }
      }
    }
    FilterIds(users.Where(search), (u: nat) => u !in memberIds)
  }

  datatype Candidate = Candidate(userId: nat, isFollowing: bool, isInvited: bool)

  /** The entry for user `u`: whether the actor follows `u`, whether `u` is invited. */
  function CandidateOf(follows: Table<Follow>, invites: Table<Invite>, actor: nat, groupId: nat, u: nat): (c: Candidate)
    requires follows.Valid() && invites.Valid()
    ensures c.userId == u
    ensures c.isFollowing <==> Follow(u, actor) in follows.Values()
    ensures c.isInvited <==> Invite(groupId, u) in invites.Values()
  {
    Candidate(u, Find(follows, Follow(u, actor)).Some?, Find(invites, Invite(groupId, u)).Some?)
  }

  /** The users `getNotMembers` lists: `limit(50)` of the eligible users. */
  function NotMembersPage(users: Table<User>, members: Table<Member>, groupId: nat, search: User -> bool): seq<nat>
    requires users.Valid()
  {
    Limit(EligibleIds(users, members, groupId, search), 50)
  }

  /** The page holds at most 50 users, none of whom has a membership row in
      the group, in ascending id order, and it misses no eligible user below
      its last one (none at all when it is not full). */
  lemma NotMembersPageSpec(users: Table<User>, members: Table<Member>, groupId: nat, search: User -> bool)
    requires users.Valid()
    ensures |NotMembersPage(users, members, groupId, search)| <= 50
    ensures Increasing(NotMembersPage(users, members, groupId, search))
    ensures forall u :: u in NotMembersPage(users, members, groupId, search) ==>
              Eligible(users, members, groupId, search, u)
    ensures forall u: nat :: Eligible(users, members, groupId, search, u) ==>
              var page := NotMembersPage(users, members, groupId, search);
              |page| < 50 || u <= page[49] ==> u in page
  {
    LimitSpec(EligibleIds(users, members, groupId, search), 50);
  }

  /** `getNotMembers`: 404 for an unknown group, otherwise one entry per user
      of the page, in page order. */
  method GetNotMembers(db: Database, actor: nat, id: nat, search: User -> bool)
    returns (out: Outcome, result: seq<Candidate>)
    requires db.users.Valid() && db.follows.Valid() && db.invites.Valid()
    ensures out == if id in db.groups.rows then Code(200) else Code(404)
    ensures out != Code(200) ==> result == []
    ensures out == Code(200) ==> |result| == |NotMembersPage(db.users, db.members, id, search)|
    ensures out == Code(200) ==> forall i :: 0 <= i < |result| ==>
              result[i] == CandidateOf(db.follows, db.invites, actor, id, NotMembersPage(db.users, db.members, id, search)[i])
  {
    if id !in db.groups.rows {
      return Code(404), [];
    }
    result := Candidates(db.follows, db.invites, actor, id, NotMembersPage(db.users, db.members, id, search));
    out := Code(200);
  }

  /** The `foreach` of `getNotMembers`: one entry per listed user, in order. */
  method Candidates(follows: Table<Follow>, invites: Table<Invite>, actor: nat, groupId: nat, page: seq<nat>)
    returns (result: seq<Candidate>)
    requires follows.Valid() && invites.Valid()
    ensures |result| == |page|
    ensures forall i :: 0 <= i < |page| ==> result[i] == CandidateOf(follows, invites, actor, groupId, page[i])
  {
    result := [];
    var i := 0;
    while i < |page|
      invariant 0 <= i <= |page|
      invariant |result| == i
      invariant forall j :: 0 <= j < i ==> result[j] == CandidateOf(follows, invites, actor, groupId, page[j])
    {
      result := result + [CandidateOf(follows, invites, actor, groupId, page[i])];
      i := i + 1;
    }
  }

  /** The membership rows `show` lists: rows of the group whose user exists
      and matches the search, in table order. */
  function ListedRows(members: Table<Member>, users: Table<User>, groupId: nat, search: User -> bool): (r: seq<nat>)
    requires members.Valid()
    ensures forall k :: k in r <==> k in members.rows && members.rows[k].groupId == groupId &&
                                      members.rows[k].userId in users.rows &&
                                      search(users.rows[members.rows[k].userId])
    ensures Increasing(r)
  {
    FilterIds(members.Where(InGroup(groupId)),
              (k: nat) => k in members.rows && members.rows[k].userId in users.rows &&
                          search(users.rows[members.rows[k].userId]))
  }

  datatype MemberEntry = MemberEntry(memberId: nat, userId: nat, role: string)

  /** `e` is what `show` reports for membership row `row`: the user of that
      row, with the id and role of that user's first row in the group. */
  ghost predicate EntryFor(members: Table<Member>, groupId: nat, row: nat, e: MemberEntry)
  {
    members.Valid() && row in members.rows && e.userId == members.rows[row].userId &&
    members.First(MemberOf(groupId, e.userId)) == Some(e.memberId) &&
    e.role == members.rows[e.memberId].role
  }

  /** The entry of one listed row. */
  function Entry(members: Table<Member>, groupId: nat, row: nat): (e: MemberEntry)
    requires members.Valid() && row in members.rows && members.rows[row].groupId == groupId
    ensures EntryFor(members, groupId, row, e)
  {
    var u := members.rows[row].userId;
    assert MemberOf(groupId, u)(members.rows[row]);
    var mem := members.First(MemberOf(groupId, u)).value;
    MemberEntry(mem, u, members.rows[mem].role)
  }

  /** `show`: one entry per listed row, carrying the id and role of the
      user's FIRST row in the group (the row itself when the user has only one). */
  method Show(db: Database, id: nat, search: User -> bool) returns (out: Outcome, result: seq<MemberEntry>)
    requires db.members.Valid() && db.users.Valid()
    ensures out == if id in db.groups.rows then Code(200) else Code(404)
    ensures out != Code(200) ==> result == []
    ensures out == Code(200) ==> |result| == |ListedRows(db.members, db.users, id, search)|
    ensures out == Code(200) ==> forall i :: 0 <= i < |result| ==>
              EntryFor(db.members, id, ListedRows(db.members, db.users, id, search)[i], result[i])
  {
    if id !in db.groups.rows {
      return Code(404), [];
    }
    result := Entries(db.members, id, ListedRows(db.members, db.users, id, search));
    out := Code(200);
  }

  /** The `foreach` of `show`: one entry per listed row, in order. */
  method Entries(members: Table<Member>, groupId: nat, rows: seq<nat>) returns (result: seq<MemberEntry>)
    requires members.Valid()
    requires forall k :: k in rows ==> k in members.rows && members.rows[k].groupId == groupId
    ensures |result| == |rows|
    ensures forall i :: 0 <= i < |rows| ==> EntryFor(members, groupId, rows[i], result[i])
  {
    result := [];
    var i := 0;
    while i < |rows|
      invariant 0 <= i <= |rows|
      invariant |result| == i
      invariant forall j :: 0 <= j < i ==> EntryFor(members, groupId, rows[j], result[j])
    {
      assert rows[i] in rows;
      result := result + [Entry(members, groupId, rows[i])];
      i := i + 1;
    }
  }

  /** Each user holds at most one row per group. */
  ghost predicate OneRowPerUser(members: Table<Member>)
  {
    forall i, j ::
      i in members.rows && j in members.rows &&
      members.rows[i].groupId == members.rows[j].groupId && members.rows[i].userId == members.rows[j].userId
      ==> i == j
  }

  /** When every user holds one row per group, the entry `show` lists for a
      row carries that row's own id. */
  lemma ShowEntryIsOwnRow(members: Table<Member>, groupId: nat, row: nat, e: MemberEntry)
    requires OneRowPerUser(members) && EntryFor(members, groupId, row, e)
    requires members.rows[row].groupId == groupId
    ensures e.memberId == row && members.rows[row].role == e.role
  {
    assert MemberOf(groupId, e.userId)(members.rows[e.memberId]);
  }

  /** The entry of a row names a row of the same user in the group, no later
      than the row itself. */
  lemma EntryNamesEarlierRow(members: Table<Member>, groupId: nat, row: nat, e: MemberEntry)
    requires EntryFor(members, groupId, row, e) && members.rows[row].groupId == groupId
    ensures e.memberId in members.rows && members.rows[e.memberId] == Member(groupId, e.userId, e.role)
    ensures e.memberId <= row
  {
    assert MemberOf(groupId, e.userId)(members.rows[e.memberId]);
    assert MemberOf(groupId, e.userId)(members.rows[row]);
  }
}
