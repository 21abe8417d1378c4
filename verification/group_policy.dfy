/** The group gate.  Every ability the controllers ask about is decided from
    the actor's global role and the actor's FIRST membership row in the group
    (table order); the group's owner is never looked at, so the predicates take
    only the group id. */
module GroupPolicy {
  import opened Tables
  import opened Schema

  /** The actor's first membership row in the group exists and has role "admin". */
  ghost predicate FirstRowAdmin(members: Table<Member>, groupId: nat, actor: nat)
  {
    exists k :: k in members.rows && members.rows[k] == Member(groupId, actor, ADMIN) &&
      forall j :: j in members.rows && j < k ==>
        !(members.rows[j].groupId == groupId && members.rows[j].userId == actor)
  }

  /** What the six list-based predicates compute. */
  ghost predicate Authorized(user: User, actor: nat, members: Table<Member>, groupId: nat)
  {
    user.role == ADMIN || FirstRowAdmin(members, groupId, actor)
  }

  /** The role on the actor's first membership row in the group, if any. */
  function FirstRole(members: Table<Member>, groupId: nat, actor: nat): (r: Option<string>)
    requires members.Valid()
    ensures r == Some(ADMIN) <==> FirstRowAdmin(members, groupId, actor)
    ensures r.None? <==> forall k :: k in members.rows ==>
              !(members.rows[k].groupId == groupId && members.rows[k].userId == actor)
  {
    match members.First(MemberOf(groupId, actor))
    case None => None
    case Some(k) =>
      assert MemberOf(groupId, actor)(members.rows[k]);
      assert members.rows[k].role == ADMIN ==> members.rows[k] == Member(groupId, actor, ADMIN);
      assert FirstRowAdmin(members, groupId, actor) ==> members.rows[k].role == ADMIN by {
        if FirstRowAdmin(members, groupId, actor) {
          var k' :| k' in members.rows && members.rows[k'] == Member(groupId, actor, ADMIN) &&
            forall j :: j in members.rows && j < k' ==>
              !(members.rows[j].groupId == groupId && members.rows[j].userId == actor);
          assert MemberOf(groupId, actor)(members.rows[k']);
          assert k' == k;
        }
      }
      Some(members.rows[k].role)
  }

  predicate ViewInvite(user: User, actor: nat, members: Table<Member>, groupId: nat): (r: bool)
    requires members.Valid()
    ensures r <==> Authorized(user, actor, members, groupId)
  {
    user.role == ADMIN || FirstRole(members, groupId, actor) == Some(ADMIN)
  }

  predicate CreateInvite(user: User, actor: nat, members: Table<Member>, groupId: nat): (r: bool)
    requires members.Valid()
    ensures r <==> Authorized(user, actor, members, groupId)
  {
    user.role == ADMIN || FirstRole(members, groupId, actor) == Some(ADMIN)
  }

  predicate Update(user: User, actor: nat, members: Table<Member>, groupId: nat): (r: bool)
    requires members.Valid()
    ensures r <==> Authorized(user, actor, members, groupId)
  {
    user.role == ADMIN || FirstRole(members, groupId, actor) == Some(ADMIN)
  }

  predicate AcceptRequest(user: User, actor: nat, members: Table<Member>, groupId: nat): (r: bool)
    requires members.Valid()
    ensures r <==> Authorized(user, actor, members, groupId)
  {
    user.role == ADMIN || FirstRole(members, groupId, actor) == Some(ADMIN)
  }

  predicate Delete(user: User, actor: nat, members: Table<Member>, groupId: nat): (r: bool)
    requires members.Valid()
    ensures r <==> Authorized(user, actor, members, groupId)
  {
    user.role == ADMIN || FirstRole(members, groupId, actor) == Some(ADMIN)
  }

  predicate DeleteInvite(user: User, actor: nat, members: Table<Member>, groupId: nat): (r: bool)
    requires members.Valid()
    ensures r <==> Authorized(user, actor, members, groupId)
  {
    user.role == ADMIN || FirstRole(members, groupId, actor) == Some(ADMIN)
  }

  /** The answer of `update_member`: it dereferences the first row without a
      null check, so a missing row is an error whatever the global role. */
  datatype Verdict = Allowed | Denied | Failed

  function UpdateMember(user: User, actor: nat, members: Table<Member>, groupId: nat): (r: Verdict)
    requires members.Valid()
    ensures r == Failed <==> forall k :: k in members.rows ==>
              !(members.rows[k].groupId == groupId && members.rows[k].userId == actor)
    ensures r == Allowed <==> !r.Failed? && Authorized(user, actor, members, groupId)
  {
    match FirstRole(members, groupId, actor)
    case None => Failed
    case Some(role) => if user.role == ADMIN || role == ADMIN then Allowed else Denied
  }

  /** A global admin passes every list-based predicate, whatever the membership table holds. */
  lemma GlobalAdminAuthorized(user: User, actor: nat, members: Table<Member>, groupId: nat)
    requires members.Valid() && user.role == ADMIN
    ensures ViewInvite(user, actor, members, groupId) && CreateInvite(user, actor, members, groupId)
    ensures Update(user, actor, members, groupId) && AcceptRequest(user, actor, members, groupId)
    ensures Delete(user, actor, members, groupId) && DeleteInvite(user, actor, members, groupId)
  {
  }

  /** A plain user whose first row in the group is missing or not "admin" is
      refused, owner of the group or not. */
  lemma PlainMemberRefused(user: User, actor: nat, members: Table<Member>, groupId: nat)
    requires members.Valid() && user.role != ADMIN
    requires forall k :: k in members.rows && MemberOf(groupId, actor)(members.rows[k]) ==>
               members.rows[k].role != ADMIN
    ensures !ViewInvite(user, actor, members, groupId) && !CreateInvite(user, actor, members, groupId)
    ensures !Update(user, actor, members, groupId) && !AcceptRequest(user, actor, members, groupId)
    ensures !Delete(user, actor, members, groupId) && !DeleteInvite(user, actor, members, groupId)
    ensures UpdateMember(user, actor, members, groupId) != Allowed
  {
    assert forall k :: k in members.rows ==> members.rows[k] != Member(groupId, actor, ADMIN);
  }
}
