/** Group invitations: listing, the invitee's pending list, inviting,
    accepting, and withdrawing an invite by (group, user) or by id. */
module GroupInviteController {
  import opened Tables
  import opened Schema
  import GroupPolicy

  /** Invites addressed to `userId`. */
  function InvitesOf(userId: nat): Invite -> bool
  {
    (i: Invite) => i.userId == userId
  }

  /** `index`: 404 for an unknown group, the `view_invite` gate (403), then
      EVERY invite of the table, whatever its group. */
  method Index(db: Database, actor: nat, id: nat) returns (out: Outcome, invites: seq<nat>)
    requires db.Valid() && actor in db.users.rows
    ensures out == if id !in db.groups.rows then Code(404)
                   else if !GroupPolicy.ViewInvite(db.users.rows[actor], actor, db.members, id) then Code(403)
                   else Code(200)
    ensures out != Code(200) ==> invites == []
    ensures out == Code(200) ==> (forall k :: k in invites <==> k in db.invites.rows) && Increasing(invites)
  {
    if id !in db.groups.rows {
      return Code(404), [];
    }
    if !GroupPolicy.ViewInvite(db.users.rows[actor], actor, db.members, id) {
      return Code(403), [];
    }
    return Code(200), db.invites.Ids();
  }

  datatype PendingInvite = PendingInvite(inviteId: nat, groupId: nat, group: Group)

  /** The `foreach` of `getPendingInvites`: each invite's group is read
      without a null check, so one invite whose group has been deleted turns
      the whole request into an error. */
  method PendingInvites(invites: Table<Invite>, groups: Table<Group>, ids: seq<nat>)
    returns (ok: bool, result: seq<PendingInvite>)
    requires forall k :: k in ids ==> k in invites.rows
    ensures ok <==> forall k :: k in ids ==> invites.rows[k].groupId in groups.rows
    ensures ok ==> |result| == |ids|
    ensures ok ==> forall i :: 0 <= i < |ids| ==>
              result[i].inviteId == ids[i] && result[i].groupId == invites.rows[ids[i]].groupId &&
              result[i].group == groups.rows[result[i].groupId]
  {
    result := [];
    var i := 0;
    while i < |ids|
      invariant 0 <= i <= |ids|
      invariant |result| == i
      invariant forall k :: k in ids[..i] ==> invites.rows[k].groupId in groups.rows
      invariant forall j :: 0 <= j < i ==>
                  result[j].inviteId == ids[j] && result[j].groupId == invites.rows[ids[j]].groupId &&
                  result[j].group == groups.rows[result[j].groupId]
    {
      var g := invites.rows[ids[i]].groupId;
      if g !in groups.rows {
        assert ids[i] in ids;
        return false, [];
      }
      assert ids[..i + 1] == ids[..i] + [ids[i]];
      result := result + [PendingInvite(ids[i], g, groups.rows[g])];
      i := i + 1;
    }
    assert ids[..i] == ids;
    ok := true;
  }

  /** `getPendingInvites`: exactly the invites addressed to the actor, in
      table order, each with its group. */
  method GetPendingInvites(db: Database, actor: nat) returns (out: Outcome, result: seq<PendingInvite>)
    requires db.invites.Valid()
    ensures out == if forall k :: k in db.invites.rows && db.invites.rows[k].userId == actor ==>
                        db.invites.rows[k].groupId in db.groups.rows
                   then Code(200) else Crash
    ensures out == Code(200) ==> |result| == |db.invites.Where(InvitesOf(actor))|
    ensures out == Code(200) ==> forall i :: 0 <= i < |result| ==>
              result[i].inviteId == db.invites.Where(InvitesOf(actor))[i]
    ensures out == Code(200) ==> forall i :: 0 <= i < |result| ==>
              var k := result[i].inviteId;
              k in db.invites.rows && db.invites.rows[k] == Invite(result[i].groupId, actor) &&
              result[i].group == db.groups.rows[result[i].groupId]
    ensures out == Code(200) ==> forall k :: k in db.invites.rows && db.invites.rows[k].userId == actor ==>
              exists i :: 0 <= i < |result| && result[i].inviteId == k
  {
    var ids := db.invites.Where(InvitesOf(actor));
    var ok;
    ok, result := PendingInvites(db.invites, db.groups, ids);
    if !ok {
      return Crash, [];
    }
    out := Code(200);
    forall k | k in db.invites.rows && db.invites.rows[k].userId == actor
      ensures exists i :: 0 <= i < |result| && result[i].inviteId == k
    {
      assert InvitesOf(actor)(db.invites.rows[k]);
      var i :| 0 <= i < |ids| && ids[i] == k;
      assert result[i].inviteId == k;
    }
  }

  /** `store`: group exists (404), `create_invite` gate (403), a user id is
      given (400), the user exists (404), is not a member (400), is not
      invited yet (400); then one invite row.  Hence at most one invite per
      (group, user). */
  method Store(db: Database, actor: nat, id: nat, targetId: Option<int>) returns (out: Outcome)
    requires db.Valid() && actor in db.users.rows
    requires NoDup(db.invites)
    modifies db`invites
    ensures db.Valid() && NoDup(db.invites)
    ensures out == if id !in db.groups.rows then Code(404)
                   else if !GroupPolicy.CreateInvite(db.users.rows[actor], actor, db.members, id) then Code(403)
                   else if targetId.None? then Code(400)
                   else if targetId.value < 0 || targetId.value !in db.users.rows then Code(404)
                   else if db.members.Any(MemberOf(id, targetId.value)) then Code(400)
                   else if Invite(id, targetId.value) in old(db.invites.Values()) then Code(400)
                   else Code(200)
    ensures out == Code(200) ==> db.invites == old(db.invites).Insert(Invite(id, targetId.value))
    ensures out == Code(200) ==> db.invites.Values() == old(db.invites.Values()) + {Invite(id, targetId.value)}
    ensures out != Code(200) ==> db.invites == old(db.invites)
  {
    if id !in db.groups.rows {
      return Code(404);
    }
    if !GroupPolicy.CreateInvite(db.users.rows[actor], actor, db.members, id) {
      return Code(403);
    }
    if targetId.None? {
      return Code(400);
    }
    if targetId.value < 0 || targetId.value !in db.users.rows {
      return Code(404);
    }
    var u: nat := targetId.value;
    if db.members.Any(MemberOf(id, u)) {
      return Code(400);
    }
    if Find(db.invites, Invite(id, u)).Some? {
      return Code(400);
    }
    InsertFresh(db.invites, Invite(id, u));
    db.SetInvites(db.invites.Insert(Invite(id, u)));
    out := Code(200);
  }

  /** `update` (accept): the invite exists (404); only the invitee may accept
      (body 403 sent with HTTP 404); the group is read without a null check;
      then a "member" row is added, without looking for an existing one, and
      the invite is deleted. */
  method Accept(db: Database, actor: nat, inviteId: nat) returns (out: Outcome)
    requires db.Valid()
    requires NoDup(db.invites)
    modifies db`invites, db`members
    ensures db.Valid() && NoDup(db.invites)
    ensures out == if inviteId !in old(db.invites.rows) then Code(404)
                   else if old(db.invites.rows[inviteId]).userId != actor then Respond(403, 404)
                   else if old(db.invites.rows[inviteId]).groupId !in db.groups.rows then Crash
                   else Code(200)
    ensures out == Code(200) ==>
      db.members == old(db.members).Insert(Member(old(db.invites.rows[inviteId]).groupId, actor, MEMBER)) &&
      db.invites == old(db.invites).Delete(inviteId)
    ensures out != Code(200) ==> db.members == old(db.members) && db.invites == old(db.invites)
  {
    if inviteId !in db.invites.rows {
      return Code(404);
    }
    var invite := db.invites.rows[inviteId];
    if invite.userId != actor {
      return Respond(403, 404);
    }
    if invite.groupId !in db.groups.rows {
      return Crash;
    }
    db.SetMembers(db.members.Insert(Member(invite.groupId, actor, MEMBER)));
    db.SetInvites(db.invites.Delete(inviteId));
    out := Code(200);
  }

  /** Who may withdraw an invite: the group's owner, any "admin" row of the
      actor in the group (not only the first), or the invitee.  The global
      role plays no part. */
  predicate MayRemove(group: Group, members: Table<Member>, invite: Invite, actor: nat)
    requires members.Valid()
  {
    actor == group.ownerId || Find(members, Member(invite.groupId, actor, ADMIN)).Some? || actor == invite.userId
  }

  /** The shared tail of `destroy` and `destroy2` once the invite row is found. */
  method RemoveInvite(db: Database, actor: nat, k: nat) returns (out: Outcome)
    requires db.Valid() && k in db.invites.rows
    requires NoDup(db.invites)
    modifies db`invites
    ensures db.Valid() && NoDup(db.invites)
    ensures out == if old(db.invites.rows[k]).groupId !in db.groups.rows then Crash
                   else if MayRemove(db.groups.rows[old(db.invites.rows[k]).groupId], db.members, old(db.invites.rows[k]), actor)
                   then Code(200) else Code(403)
    ensures out == Code(200) ==> db.invites == old(db.invites).Delete(k)
    ensures out != Code(200) ==> db.invites == old(db.invites)
  {
    var invite := db.invites.rows[k];
    if invite.groupId !in db.groups.rows {
      return Crash;
    }
    if MayRemove(db.groups.rows[invite.groupId], db.members, invite, actor) {
      db.SetInvites(db.invites.Delete(k));
      out := Code(200);
    } else {
      out := Code(403);
    }
  }

  /** `destroy`: the invite is looked up by (group, user); 404 when absent. */
  method Destroy(db: Database, actor: nat, groupId: nat, userId: nat) returns (out: Outcome)
    requires db.Valid()
    requires NoDup(db.invites)
    modifies db`invites
    ensures db.Valid() && NoDup(db.invites)
    ensures out == if Invite(groupId, userId) !in old(db.invites.Values()) then Code(404)
                   else if groupId !in db.groups.rows then Crash
                   else if MayRemove(db.groups.rows[groupId], db.members, Invite(groupId, userId), actor)
                   then Code(200) else Code(403)
    ensures out == Code(200) ==> db.invites.Values() == old(db.invites.Values()) - {Invite(groupId, userId)}
    ensures out == Code(200) ==>
              Find(old(db.invites), Invite(groupId, userId)).Some? &&
              db.invites == old(db.invites).Delete(Find(old(db.invites), Invite(groupId, userId)).value)
    ensures out != Code(200) ==> db.invites == old(db.invites)
  {
    var found := Find(db.invites, Invite(groupId, userId));
    if found.None? {
      return Code(404);
    }
    FlipSpec(db.invites, Invite(groupId, userId));
    out := RemoveInvite(db, actor, found.value);
  }

  /** `destroy2`: the invite is looked up by id; otherwise as `destroy`. */
  method Destroy2(db: Database, actor: nat, inviteId: nat) returns (out: Outcome)
    requires db.Valid()
    requires NoDup(db.invites)
    modifies db`invites
    ensures db.Valid() && NoDup(db.invites)
    ensures out == if inviteId !in old(db.invites.rows) then Code(404)
                   else if old(db.invites.rows[inviteId]).groupId !in db.groups.rows then Crash
                   else if MayRemove(db.groups.rows[old(db.invites.rows[inviteId]).groupId], db.members,
                                     old(db.invites.rows[inviteId]), actor)
                   then Code(200) else Code(403)
    ensures out == Code(200) ==> db.invites == old(db.invites).Delete(inviteId)
    ensures out != Code(200) ==> db.invites == old(db.invites)
  {
    if inviteId !in db.invites.rows {
      return Code(404);
    }
    out := RemoveInvite(db, actor, inviteId);
  }

  /** A global admin who owns nothing in the group, has no "admin" row in it
      and is not the invitee cannot withdraw the invite. */
  lemma GlobalAdminCannotRemove(group: Group, members: Table<Member>, invite: Invite, actor: nat)
    requires members.Valid()
    requires actor != group.ownerId && actor != invite.userId
    requires forall k :: k in members.rows ==> members.rows[k] != Member(invite.groupId, actor, ADMIN)
    ensures !MayRemove(group, members, invite, actor)
  {
    assert Member(invite.groupId, actor, ADMIN) !in members.Values();
  }
}
