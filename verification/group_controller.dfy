/** Group life cycle: creation, the group page, settings, admin promotion,
    deletion, joining, leaving and ownership transfer.  Each action takes the
    authenticated actor's id and the request fields; password hashing is the
    `check` parameter (plain text, stored hash). */
module GroupController {
  import opened Tables
  import opened Schema
  import GroupPolicy

  /** `store`: validation (title and status required, image URL well formed)
      then a new group owned by the actor and the actor's "admin" membership row. */
  method Store(db: Database, actor: nat, title: string, status: string, imgUrl: string, urlOk: bool)
    returns (out: Outcome)
    requires db.Valid()
    modifies db`groups, db`members
    ensures db.Valid()
    ensures out == if title != "" && status != "" && urlOk then Code(200) else Code(400)
    ensures out == Code(200) ==>
      db.groups == old(db.groups).Insert(Group(title, imgUrl, actor, status)) &&
      db.members == old(db.members).Insert(Member(old(db.groups.next), actor, ADMIN))
    ensures out != Code(200) ==> db.groups == old(db.groups) && db.members == old(db.members)
  {
    if !(title != "" && status != "" && urlOk) {
      return Code(400);
    }
    var id := db.groups.next;
    db.SetGroups(db.groups.Insert(Group(title, imgUrl, actor, status)));
    db.SetMembers(db.members.Insert(Member(id, actor, ADMIN)));
    out := Code(200);
  }

  /** The creator of a group passes the group gate on it: no earlier
      membership row can name a group id that had not been handed out yet. */
  lemma {:induction false} CreatorAuthorized(groups: Table<Group>, members: Table<Member>, actor: nat)
    requires members.Valid()
    requires forall k :: k in members.rows ==> members.rows[k].groupId < groups.next
    ensures GroupPolicy.FirstRowAdmin(members.Insert(Member(groups.next, actor, ADMIN)), groups.next, actor)
  {
    var t := members.Insert(Member(groups.next, actor, ADMIN));
    assert t.rows[members.next] == Member(groups.next, actor, ADMIN);
    forall j | j in t.rows && j < members.next
      ensures !(t.rows[j].groupId == groups.next && t.rows[j].userId == actor)
    {
      assert t.rows[j] == members.rows[j];
    }
  }

  /** The fields of the group page that the model computes. */
  datatype GroupView = GroupView(group: Group, isMember: bool, isAdmin: bool,
                                 members: nat, posts: nat,
                                 isRequesting: Option<bool>, inviteId: Option<nat>)

  /** `show`: the owner counts as member and admin; anyone else through the
      first membership row; `is_requesting` is only reported for private groups. */
  function Show(db: Database, actor: nat, id: nat): (r: Option<GroupView>)
    reads db
    requires db.Valid()
    ensures r.None? <==> id !in db.groups.rows
    ensures r.Some? ==> r.value.group == db.groups.rows[id]
    ensures r.Some? ==>
              (r.value.isMember <==>
                 db.groups.rows[id].ownerId == actor ||
                 exists k :: k in db.members.rows && MemberOf(id, actor)(db.members.rows[k]))
    ensures r.Some? ==>
              (r.value.isAdmin <==>
                 db.groups.rows[id].ownerId == actor || GroupPolicy.FirstRowAdmin(db.members, id, actor))
    ensures r.Some? ==> r.value.members == |db.members.Matching(InGroup(id))|
    ensures r.Some? ==> r.value.posts == |db.posts.Matching(PostInGroup(id))|
    ensures r.Some? ==> (r.value.isRequesting.Some? <==> db.groups.rows[id].status == PRIVATE)
    ensures r.Some? && r.value.isRequesting.Some? ==>
              (r.value.isRequesting.value <==> JoinRequest(id, actor) in db.requests.Values())
    ensures r.Some? ==> (r.value.inviteId.Some? <==> Invite(id, actor) in db.invites.Values())
    ensures r.Some? && r.value.inviteId.Some? ==>
              r.value.inviteId.value in db.invites.rows &&
              db.invites.rows[r.value.inviteId.value] == Invite(id, actor)
  {
    if id !in db.groups.rows then None
    else
      var g := db.groups.rows[id];
      var first := GroupPolicy.FirstRole(db.members, id, actor);
      var memberCount := db.members.Count(InGroup(id));
      var postCount := db.posts.Count(PostInGroup(id));
      var requesting := if g.status == PRIVATE then Some(Find(db.requests, JoinRequest(id, actor)).Some?) else None;
      var invite := Find(db.invites, Invite(id, actor));
      Some(GroupView(g, g.ownerId == actor || first.Some?, g.ownerId == actor || first == Some(ADMIN),
                     memberCount, postCount, requesting, invite))
  }

  /** The bulk status update of `update`: every post of the group takes the
      new status, nothing else about any post changes. */
  function WithGroupStatus(posts: Table<Post>, groupId: nat, status: string): (t: Table<Post>)
    ensures t.next == posts.next
    ensures forall k :: k in t.rows <==> k in posts.rows
    ensures forall k :: k in posts.rows && posts.rows[k].groupId == Some(groupId) ==>
              t.rows[k].status == status
    ensures forall k :: k in posts.rows && posts.rows[k].groupId != Some(groupId) ==>
              t.rows[k] == posts.rows[k]
    ensures forall k :: k in posts.rows ==> t.rows[k].(status := posts.rows[k].status) == posts.rows[k]
  {
    Table(map k | k in posts.rows ::
            if posts.rows[k].groupId == Some(groupId) then posts.rows[k].(status := status)
            else posts.rows[k],
          posts.next)
  }

  /** `update`: existence (404), the `update` gate (403), validation (400);
      the image URL is kept when the request's is empty, and the group's
      posts take the new status. */
  method Update(db: Database, actor: nat, id: nat, title: string, status: string, imgUrl: string, urlOk: bool)
    returns (out: Outcome)
    requires db.Valid() && actor in db.users.rows
    modifies db`groups, db`posts
    ensures db.Valid()
    ensures out == if id !in old(db.groups.rows) then Code(404)
                   else if !GroupPolicy.Update(db.users.rows[actor], actor, db.members, id) then Code(403)
                   else if !(title != "" && status != "" && urlOk) then Code(400)
                   else Code(200)
    ensures out == Code(200) ==>
      db.groups == old(db.groups).Put(id, old(db.groups.rows[id]).(title := title, status := status,
                     imgUrl := if imgUrl != "" then imgUrl else old(db.groups.rows[id].imgUrl))) &&
      db.posts == WithGroupStatus(old(db.posts), id, status)
    ensures out != Code(200) ==> db.groups == old(db.groups) && db.posts == old(db.posts)
  {
    if id !in db.groups.rows {
      return Code(404);
    }
    if !GroupPolicy.Update(db.users.rows[actor], actor, db.members, id) {
      return Code(403);
    }
    if !(title != "" && status != "" && urlOk) {
      return Code(400);
    }
    var g := db.groups.rows[id].(title := title, status := status);
    if imgUrl != "" {
      g := g.(imgUrl := imgUrl);
    }
    db.SetGroups(db.groups.Put(id, g));
    db.SetPosts(WithGroupStatus(db.posts, id, status));
    out := Code(200);
  }

  /** Shared body of `promoteToAdmin` and `demoteAdmin`: the membership row
      must exist (404), its group is dereferenced without a null check, and
      only the group's owner may change the row's role (401). */
  method SetMemberRole(db: Database, actor: nat, memberId: nat, role: string) returns (out: Outcome)
    requires db.Valid()
    modifies db`members
    ensures db.Valid()
    ensures out == if memberId !in old(db.members.rows) then Code(404)
                   else if old(db.members.rows[memberId].groupId) !in db.groups.rows then Crash
                   else if db.groups.rows[old(db.members.rows[memberId].groupId)].ownerId != actor then Code(401)
                   else Code(200)
    ensures out == Code(200) ==>
      db.members == old(db.members).Put(memberId, old(db.members.rows[memberId]).(role := role))
    ensures out != Code(200) ==> db.members == old(db.members)
  {
    if memberId !in db.members.rows {
      return Code(404);
    }
    var m := db.members.rows[memberId];
    if m.groupId !in db.groups.rows {
      return Crash;
    }
    if db.groups.rows[m.groupId].ownerId != actor {
      return Code(401);
    }
    db.SetMembers(db.members.Put(memberId, m.(role := role)));
    out := Code(200);
  }

  /** `promoteToAdmin`: the owner sets the row's role to "admin". */
  method PromoteToAdmin(db: Database, actor: nat, memberId: nat) returns (out: Outcome)
    requires db.Valid()
    modifies db`members
    ensures db.Valid()
    ensures out == if memberId !in old(db.members.rows) then Code(404)
                   else if old(db.members.rows[memberId].groupId) !in db.groups.rows then Crash
                   else if db.groups.rows[old(db.members.rows[memberId].groupId)].ownerId != actor then Code(401)
                   else Code(200)
    ensures out == Code(200) ==>
      db.members == old(db.members).Put(memberId, old(db.members.rows[memberId]).(role := ADMIN))
    ensures out != Code(200) ==> db.members == old(db.members)
  {
    out := SetMemberRole(db, actor, memberId, ADMIN);
  }

  /** `demoteAdmin`: the owner sets the row's role to "member". */
  method DemoteAdmin(db: Database, actor: nat, memberId: nat) returns (out: Outcome)
    requires db.Valid()
    modifies db`members
    ensures db.Valid()
    ensures out == if memberId !in old(db.members.rows) then Code(404)
                   else if old(db.members.rows[memberId].groupId) !in db.groups.rows then Crash
                   else if db.groups.rows[old(db.members.rows[memberId].groupId)].ownerId != actor then Code(401)
                   else Code(200)
    ensures out == Code(200) ==>
      db.members == old(db.members).Put(memberId, old(db.members.rows[memberId]).(role := MEMBER))
    ensures out != Code(200) ==> db.members == old(db.members)
  {
    out := SetMemberRole(db, actor, memberId, MEMBER);
  }

  /** `destroy`: password present (400), password correct (401), group exists
      (404), `delete` gate (403); then the group, its membership rows and its
      posts go.  Invites and join requests are not touched. */
  method Destroy(db: Database, actor: nat, id: nat, password: string, check: (string, string) -> bool)
    returns (out: Outcome)
    requires db.Valid() && actor in db.users.rows
    modifies db`groups, db`members, db`posts
    ensures db.Valid()
    ensures out == if password == "" then Code(400)
                   else if !check(password, db.users.rows[actor].password) then Code(401)
                   else if id !in old(db.groups.rows) then Code(404)
                   else if !GroupPolicy.Delete(db.users.rows[actor], actor, old(db.members), id) then Code(403)
                   else Code(200)
    ensures out == Code(200) ==>
      db.groups == old(db.groups).Delete(id) &&
      db.members == old(db.members).DeleteWhere(InGroup(id)) &&
      db.posts == old(db.posts).DeleteWhere(PostInGroup(id))
    ensures out != Code(200) ==>
      db.groups == old(db.groups) && db.members == old(db.members) && db.posts == old(db.posts)
  {
    if password == "" {
      return Code(400);
    }
    if !check(password, db.users.rows[actor].password) {
      return Code(401);
    }
    if id !in db.groups.rows {
      return Code(404);
    }
    if !GroupPolicy.Delete(db.users.rows[actor], actor, db.members, id) {
      return Code(403);
    }
    db.SetGroups(db.groups.Delete(id));
    db.SetMembers(db.members.DeleteWhere(InGroup(id)));
    db.SetPosts(db.posts.DeleteWhere(PostInGroup(id)));
    out := Code(200);
  }

  /** After a successful `destroy` no membership row and no post of the group is left. */
  lemma DestroyLeavesNoneBehind(members: Table<Member>, posts: Table<Post>, id: nat)
    ensures forall k :: k in members.DeleteWhere(InGroup(id)).rows ==>
              members.DeleteWhere(InGroup(id)).rows[k].groupId != id
    ensures forall k :: k in posts.DeleteWhere(PostInGroup(id)).rows ==>
              posts.DeleteWhere(PostInGroup(id)).rows[k].groupId != Some(id)
  {
  }

  /** `joinPublicGroup`: 404 for an unknown group, 400 for an existing
      member, otherwise a "member" row; the group's status is not consulted. */
  method JoinPublicGroup(db: Database, actor: nat, id: nat) returns (out: Outcome)
    requires db.Valid()
    modifies db`members
    ensures db.Valid()
    ensures out == if id !in db.groups.rows then Code(404)
                   else if old(db.members).Any(MemberOf(id, actor)) then Code(400)
                   else Code(200)
    ensures out == Code(200) ==> db.members == old(db.members).Insert(Member(id, actor, MEMBER))
    ensures out != Code(200) ==> db.members == old(db.members)
  {
    if id !in db.groups.rows {
      return Code(404);
    }
    if db.members.Any(MemberOf(id, actor)) {
      return Code(400);
    }
    db.SetMembers(db.members.Insert(Member(id, actor, MEMBER)));
    out := Code(200);
  }

  /** `leaveGroup`: removes exactly the actor's first membership row; the
      group row, and so its owner, stays as it was. */
  method LeaveGroup(db: Database, actor: nat, id: nat) returns (out: Outcome)
    requires db.Valid()
    modifies db`members
    ensures db.Valid()
    ensures out == if id !in db.groups.rows then Code(404)
                   else if !old(db.members).Any(MemberOf(id, actor)) then Code(400)
                   else Code(200)
    ensures out == Code(200) ==>
      var k := old(db.members).First(MemberOf(id, actor)).value;
      db.members == old(db.members).Delete(k) && old(db.members.rows[k]).userId == actor
    ensures out != Code(200) ==> db.members == old(db.members)
  {
    if id !in db.groups.rows {
      return Code(404);
    }
    var first := db.members.First(MemberOf(id, actor));
    if first.None? {
      return Code(400);
    }
    assert MemberOf(id, actor)(db.members.rows[first.value]);
    db.SetMembers(db.members.Delete(first.value));
    out := Code(200);
  }

  /** The membership write of `transferGroupOwnership`: the new owner's first
      row in the group becomes "admin", or an "admin" row is added. */
  function MakeAdmin(members: Table<Member>, groupId: nat, userId: nat): (t: Table<Member>)
    requires members.Valid()
    ensures t.Valid()
    ensures GroupPolicy.FirstRowAdmin(t, groupId, userId)
    ensures forall k :: k in members.rows && !(members.rows[k].groupId == groupId && members.rows[k].userId == userId) ==>
              k in t.rows && t.rows[k] == members.rows[k]
    ensures forall k :: k in members.rows && members.First(MemberOf(groupId, userId)) != Some(k) ==>
              k in t.rows && t.rows[k] == members.rows[k]
    ensures forall k :: k in t.rows ==> k in members.rows || t.rows[k] == Member(groupId, userId, ADMIN)
    ensures forall k :: k in members.rows ==> k in t.rows
    ensures forall k :: k in t.rows && k !in members.rows ==> k == members.next
    ensures members.First(MemberOf(groupId, userId)).Some? ==> t.rows.Keys == members.rows.Keys
    ensures t.next <= members.next + 1
  {
    match members.First(MemberOf(groupId, userId))
    case Some(k) =>
      PromotedFirst(members, groupId, userId, k);
      members.Put(k, Member(groupId, userId, ADMIN))
    case None =>
      AddedFirst(members, groupId, userId);
      members.Insert(Member(groupId, userId, ADMIN))
  }

  /** `MakeAdmin` on a user with a row in the group: that first row, turned
      into "admin", is still the first. */
  lemma PromotedFirst(members: Table<Member>, groupId: nat, userId: nat, k: nat)
    requires members.Valid() && members.First(MemberOf(groupId, userId)) == Some(k)
    ensures GroupPolicy.FirstRowAdmin(members.Put(k, Member(groupId, userId, ADMIN)), groupId, userId)
  {
    var t := members.Put(k, Member(groupId, userId, ADMIN));
    assert MemberOf(groupId, userId)(members.rows[k]);
    assert t.rows[k] == Member(groupId, userId, ADMIN);
    forall j | j in t.rows && j < k
      ensures !(t.rows[j].groupId == groupId && t.rows[j].userId == userId)
    {
      assert t.rows[j] == members.rows[j] && !MemberOf(groupId, userId)(members.rows[j]);
    }
  }

  /** `MakeAdmin` on a user with no row in the group: the inserted "admin"
      row is the first. */
  lemma AddedFirst(members: Table<Member>, groupId: nat, userId: nat)
    requires members.Valid() && members.First(MemberOf(groupId, userId)) == None
    ensures GroupPolicy.FirstRowAdmin(members.Insert(Member(groupId, userId, ADMIN)), groupId, userId)
  {
    var t := members.Insert(Member(groupId, userId, ADMIN));
    assert t.rows[members.next] == Member(groupId, userId, ADMIN);
    forall j | j in t.rows && j < members.next
      ensures !(t.rows[j].groupId == groupId && t.rows[j].userId == userId)
    {
      assert t.rows[j] == members.rows[j] && !MemberOf(groupId, userId)(members.rows[j]);
    }
  }

  /** `transferGroupOwnership`: group exists (404), actor is the owner (400),
      validation (400), password (401), new owner exists (404); then the owner
      changes and the new owner holds an "admin" first row.  The previous
      owner's rows are untouched. */
  method TransferOwnership(db: Database, actor: nat, id: nat, newOwnerId: Option<int>, password: string,
                           check: (string, string) -> bool)
    returns (out: Outcome)
    requires db.Valid() && actor in db.users.rows
    modifies db`groups, db`members
    ensures db.Valid()
    ensures out == if id !in old(db.groups.rows) then Code(404)
                   else if old(db.groups.rows[id]).ownerId != actor then Code(400)
                   else if newOwnerId.None? || password == "" then Code(400)
                   else if !check(password, db.users.rows[actor].password) then Code(401)
                   else if newOwnerId.value < 0 || newOwnerId.value !in db.users.rows then Code(404)
                   else Code(200)
    ensures out == Code(200) ==>
      db.groups == old(db.groups).Put(id, old(db.groups.rows[id]).(ownerId := newOwnerId.value)) &&
      db.members == MakeAdmin(old(db.members), id, newOwnerId.value)
    ensures out != Code(200) ==> db.groups == old(db.groups) && db.members == old(db.members)
  {
    if id !in db.groups.rows {
      return Code(404);
    }
    if db.groups.rows[id].ownerId != actor {
      return Code(400);
    }
    if newOwnerId.None? || password == "" {
      return Code(400);
    }
    if !check(password, db.users.rows[actor].password) {
      return Code(401);
    }
    if newOwnerId.value < 0 || newOwnerId.value !in db.users.rows {
      return Code(404);
    }
    var n: nat := newOwnerId.value;
    var members := MakeAdmin(db.members, id, n);
    assert id < db.groups.next;
    assert forall k :: k in members.rows ==> members.rows[k].groupId < db.groups.next;
    db.SetGroups(db.groups.Put(id, db.groups.rows[id].(ownerId := n)));
    db.SetMembers(members);
    out := Code(200);
  }
}
