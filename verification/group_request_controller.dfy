/** Requests to join a group: the requester's toggle, the admins' pending
    list, accepting and withdrawing. */
module GroupRequestController {
  import opened Tables
  import opened Schema
  import GroupPolicy

  /** `store`: a member of the group gets 400; an existing request of the
      actor is withdrawn (200); otherwise the group must exist (404) and a
      request is created (201).  So the same call, repeated, toggles the
      request, and there is never more than one per (group, user). */
  method Store(db: Database, actor: nat, id: nat) returns (out: Outcome)
    requires db.Valid() && NoDup(db.requests)
    modifies db`requests
    ensures db.Valid() && NoDup(db.requests)
    ensures out == if db.members.Any(MemberOf(id, actor)) then Code(400)
                   else if JoinRequest(id, actor) in old(db.requests.Values()) then Code(200)
                   else if id !in db.groups.rows then Code(404)
                   else Code(201)
    ensures out in {Code(200), Code(201)} ==> db.requests == Flip(old(db.requests), JoinRequest(id, actor))
    ensures out == Code(200) ==> db.requests.Values() == old(db.requests.Values()) - {JoinRequest(id, actor)}
    ensures out == Code(201) ==> db.requests.Values() == old(db.requests.Values()) + {JoinRequest(id, actor)}
    ensures out !in {Code(200), Code(201)} ==> db.requests == old(db.requests)
  {
    if db.members.Any(MemberOf(id, actor)) {
      return Code(400);
    }
    var r := JoinRequest(id, actor);
    var existing := Find(db.requests, r);
    if existing.None? && id !in db.groups.rows {
      return Code(404);
    }
    FlipSpec(db.requests, r);
    db.SetRequests(Flip(db.requests, r));
    out := if existing.Some? then Code(200) else Code(201);
  }

  /** A pending request as listed: the request id and the requester's
      public fields. */
  datatype RequestEntry = RequestEntry(requestId: nat, userId: nat, firstName: string,
                                       lastName: string, email: string, pfImgUrl: string)

  /** The `foreach` of `getPendingRequests`: each requester is read without
      a null check, so a request left behind by a deleted account turns the
      whole listing into an error. */
  method Requesters(requests: Table<JoinRequest>, users: Table<User>, ids: seq<nat>)
    returns (ok: bool, result: seq<RequestEntry>)
    requires forall k :: k in ids ==> k in requests.rows
    ensures ok <==> forall k :: k in ids ==> requests.rows[k].userId in users.rows
    ensures ok ==> |result| == |ids|
    ensures ok ==> forall i :: 0 <= i < |ids| ==>
              var u := requests.rows[ids[i]].userId;
              result[i] == RequestEntry(ids[i], u, users.rows[u].firstName, users.rows[u].lastName,
                                        users.rows[u].email, users.rows[u].pfImgUrl)
  {
    result := [];
    var i := 0;
    while i < |ids|
      invariant 0 <= i <= |ids|
      invariant |result| == i
      invariant forall k :: k in ids[..i] ==> requests.rows[k].userId in users.rows
      invariant forall j :: 0 <= j < i ==>
                  var u := requests.rows[ids[j]].userId;
                  result[j] == RequestEntry(ids[j], u, users.rows[u].firstName, users.rows[u].lastName,
                                            users.rows[u].email, users.rows[u].pfImgUrl)
    {
      var u := requests.rows[ids[i]].userId;
      if u !in users.rows {
        assert ids[i] in ids;
        return false, [];
      }
      assert ids[..i + 1] == ids[..i] + [ids[i]];
      var user := users.rows[u];
      result := result + [RequestEntry(ids[i], u, user.firstName, user.lastName, user.email, user.pfImgUrl)];
      i := i + 1;
    }
    assert ids[..i] == ids;
    ok := true;
  }

  /** Join requests for `groupId`. */
  function ForGroup(groupId: nat): JoinRequest -> bool
  {
    (r: JoinRequest) => r.groupId == groupId
  }

  /** `getPendingRequests`: 404, the `accept_request` gate (403), then the
      group's requests in table order, each with its requester. */
  method GetPendingRequests(db: Database, actor: nat, id: nat) returns (out: Outcome, result: seq<RequestEntry>)
    requires db.members.Valid() && db.requests.Valid() && actor in db.users.rows
    ensures out == if id !in db.groups.rows then Code(404)
                   else if !GroupPolicy.AcceptRequest(db.users.rows[actor], actor, db.members, id) then Code(403)
                   else if exists k :: k in db.requests.rows && db.requests.rows[k].groupId == id &&
                                       db.requests.rows[k].userId !in db.users.rows then Crash
                   else Code(200)
    ensures out == Code(200) ==> |result| == |db.requests.Where(ForGroup(id))|
    ensures out == Code(200) ==> forall i :: 0 <= i < |result| ==>
              result[i].requestId == db.requests.Where(ForGroup(id))[i]
    ensures out == Code(200) ==> forall i :: 0 <= i < |result| ==>
              var k := result[i].requestId;
              var u := result[i].userId;
              k in db.requests.rows && db.requests.rows[k] == JoinRequest(id, u) && u in db.users.rows &&
              result[i] == RequestEntry(k, u, db.users.rows[u].firstName, db.users.rows[u].lastName,
                                        db.users.rows[u].email, db.users.rows[u].pfImgUrl)
    ensures out == Code(200) ==> forall k :: k in db.requests.rows && db.requests.rows[k].groupId == id ==>
              exists i :: 0 <= i < |result| && result[i].requestId == k
    ensures out != Code(200) ==> result == []
  {
    if id !in db.groups.rows {
      return Code(404), [];
    }
    if !GroupPolicy.AcceptRequest(db.users.rows[actor], actor, db.members, id) {
      return Code(403), [];
    }
    var requests, users := db.requests, db.users;
    var ids := requests.Where(ForGroup(id));
    var ok;
    ok, result := Requesters(requests, users, ids);
    if !ok {
      var j :| j in ids && requests.rows[j].userId !in users.rows;
      assert ForGroup(id)(requests.rows[j]);
      return Crash, [];
    }
    out := Code(200);
    forall k | k in requests.rows && requests.rows[k].groupId == id
      ensures requests.rows[k].userId in users.rows
      ensures exists i :: 0 <= i < |result| && result[i].requestId == k
    {
      assert ForGroup(id)(requests.rows[k]);
      var i :| 0 <= i < |ids| && ids[i] == k;
      assert result[i].requestId == k;
    }
    forall i | 0 <= i < |result|
      ensures result[i].requestId in requests.rows
      ensures requests.rows[result[i].requestId] == JoinRequest(id, result[i].userId)
    {
      assert ids[i] in ids;
      assert ForGroup(id)(requests.rows[ids[i]]);
    }
  }

  /** The `accept_request` gate on the request's group; a deleted group is
      passed as null, which no gate allows. */
  predicate MayAccept(db: Database, actor: nat, groupId: nat)
    reads db
    requires db.members.Valid() && actor in db.users.rows
  {
    groupId in db.groups.rows && GroupPolicy.AcceptRequest(db.users.rows[actor], actor, db.members, groupId)
  }

  /** `update` (accept): a missing request is reported as 404 with HTTP 400;
      the gate (403); then a "member" row for the requester, added without
      looking for an existing one, and the request is deleted. */
  method Update(db: Database, actor: nat, requestId: nat) returns (out: Outcome)
    requires db.Valid() && NoDup(db.requests) && actor in db.users.rows
    modifies db`requests, db`members
    ensures db.Valid() && NoDup(db.requests)
    ensures out == if requestId !in old(db.requests.rows) then Respond(404, 400)
                   else if !old(MayAccept(db, actor, db.requests.rows[requestId].groupId)) then Code(403)
                   else Code(200)
    ensures out == Code(200) ==>
      var r := old(db.requests.rows[requestId]);
      db.members == old(db.members).Insert(Member(r.groupId, r.userId, MEMBER)) &&
      db.requests == old(db.requests).Delete(requestId) &&
      db.members.Any(MemberOf(r.groupId, r.userId))
    ensures out != Code(200) ==> db.members == old(db.members) && db.requests == old(db.requests)
  {
    if requestId !in db.requests.rows {
      return Respond(404, 400);
    }
    var r := db.requests.rows[requestId];
    if !MayAccept(db, actor, r.groupId) {
      return Code(403);
    }
    var members := db.members.Insert(Member(r.groupId, r.userId, MEMBER));
    assert MemberOf(r.groupId, r.userId)(members.rows[db.members.next]);
    db.SetMembers(members);
    db.SetRequests(db.requests.Delete(requestId));
    out := Code(200);
  }

  /** `destroy`: a missing request is 404 with HTTP 400; the requester may
      always withdraw it; anyone else needs the `accept_request` gate (403). */
  method Destroy(db: Database, actor: nat, requestId: nat) returns (out: Outcome)
    requires db.Valid() && NoDup(db.requests) && actor in db.users.rows
    modifies db`requests
    ensures db.Valid() && NoDup(db.requests)
    ensures out == if requestId !in old(db.requests.rows) then Respond(404, 400)
                   else if old(db.requests.rows[requestId]).userId == actor then Code(200)
                   else if !MayAccept(db, actor, old(db.requests.rows[requestId]).groupId) then Code(403)
                   else Code(200)
    ensures out == Code(200) ==> db.requests == old(db.requests).Delete(requestId)
    ensures out != Code(200) ==> db.requests == old(db.requests)
  {
    if requestId !in db.requests.rows {
      return Respond(404, 400);
    }
    var r := db.requests.rows[requestId];
    if r.userId != actor && !MayAccept(db, actor, r.groupId) {
      return Code(403);
    }
    db.SetRequests(db.requests.Delete(requestId));
    out := Code(200);
  }
}
