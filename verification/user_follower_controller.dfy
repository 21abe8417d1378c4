/** Follow edges: `Follow(userId, followerId)` says `followerId` follows
    `userId`; at most one edge per pair. */
module UserFollowerController {
  import opened Tables
  import opened Schema

  /** `followUser`: following yourself is 401; the target is read without a
      null check, so an unknown id ends in an error; an existing edge is
      401; otherwise the edge is added. */
  method FollowUser(db: Database, actor: nat, id: nat) returns (out: Outcome)
    requires db.Valid() && NoDup(db.follows)
    modifies db`follows
    ensures db.Valid() && NoDup(db.follows)
    ensures out == if actor == id then Code(401)
                   else if id !in db.users.rows then Crash
                   else if Follow(id, actor) in old(db.follows.Values()) then Code(401)
                   else Code(200)
    ensures out == Code(200) ==> db.follows == old(db.follows).Insert(Follow(id, actor)) &&
                                 db.follows.Values() == old(db.follows.Values()) + {Follow(id, actor)}
    ensures out != Code(200) ==> db.follows == old(db.follows)
  {
    if actor == id {
      return Code(401);
    }
    if id !in db.users.rows {
      return Crash;
    }
    var e := Follow(id, actor);
    if Find(db.follows, e).Some? {
      return Code(401);
    }
    InsertFresh(db.follows, e);
    db.SetFollows(db.follows.Insert(e));
    out := Code(200);
  }

  /** `unfollowUser`: unfollowing yourself is 401, and so is unfollowing a
      user you do not follow; otherwise the edge is deleted. */
  method UnfollowUser(db: Database, actor: nat, id: nat) returns (out: Outcome)
    requires db.Valid() && NoDup(db.follows)
    modifies db`follows
    ensures db.Valid() && NoDup(db.follows)
    ensures out == if actor == id then Code(401)
                   else if Follow(id, actor) !in old(db.follows.Values()) then Code(401)
                   else Code(200)
    ensures out == Code(200) ==> db.follows == old(db.follows).Delete(Find(old(db.follows), Follow(id, actor)).value) &&
                                 db.follows.Values() == old(db.follows.Values()) - {Follow(id, actor)}
    ensures out != Code(200) ==> db.follows == old(db.follows)
  {
    if actor == id {
      return Code(401);
    }
    var e := Follow(id, actor);
    var k := Find(db.follows, e);
    if k.None? {
      return Code(401);
    }
    FlipSpec(db.follows, e);
    db.SetFollows(db.follows.Delete(k.value));
    out := Code(200);
  }

  /** A follow followed by an unfollow gives back exactly the edge rows
      there were before. */
  lemma {:induction false} FollowThenUnfollow(follows: Table<Follow>, actor: nat, id: nat)
    requires follows.Valid() && Follow(id, actor) !in follows.Values()
    ensures var t := follows.Insert(Follow(id, actor));
            Follow(id, actor) in t.Values() &&
            t.Delete(Find(t, Follow(id, actor)).value).rows == follows.rows
  {
    FindInserted(follows, Follow(id, actor));
    var t := follows.Insert(Follow(id, actor));
    assert t.rows[follows.next] == Follow(id, actor);
  }

  /** A follower as listed. */
  datatype FollowerEntry = FollowerEntry(id: nat, firstName: string, lastName: string, email: string,
                                         pfImgUrl: string, isFollowing: bool)

  /** Whether `actor` follows `userId`. */
  function Follows(follows: Table<Follow>, actor: nat, userId: nat): (b: bool)
    requires follows.Valid()
    ensures b <==> Follow(userId, actor) in follows.Values()
  {
    Find(follows, Follow(userId, actor)).Some?
  }

  function EntryFor(follows: Table<Follow>, users: Table<User>, actor: nat, f: nat): FollowerEntry
    requires follows.Valid() && f in users.rows
  {
    var u := users.rows[f];
    FollowerEntry(f, u.firstName, u.lastName, u.email, u.pfImgUrl, Follows(follows, actor, f))
  }

  /** The `foreach` of `getUserFollowers` over the edge rows `edges`: with a
      search (the `like` filter on names and e-mail, as a predicate), each
      follower is first looked up with `find(...)->where(...)`, which fails
      on a follower account that is gone, and kept when it matches; without
      one, a missing follower is skipped.  `None` is the error. */
  function FollowerList(follows: Table<Follow>, users: Table<User>, actor: nat, edges: seq<nat>,
                        search: Option<User -> bool>): Option<seq<FollowerEntry>>
    requires follows.Valid() && forall k :: k in edges ==> k in follows.rows
    decreases |edges|
  {
    if edges == [] then Some([])
    else
      match FollowerList(follows, users, actor, edges[..|edges| - 1], search)
      case None => None
      case Some(d) =>
        var f := follows.rows[edges[|edges| - 1]].followerId;
        if f !in users.rows then (if search.Some? then None else Some(d))
        else if search.Some? && !search.value(users.rows[f]) then Some(d)
        else Some(d + [EntryFor(follows, users, actor, f)])
  }

  /** The listing fails exactly when a search is given and some edge names a
      missing follower; otherwise it holds one entry per edge whose follower
      exists and matches, in edge order, each with `isFollowing` iff the
      actor follows that follower. */
  lemma {:induction false} FollowerListSpec(follows: Table<Follow>, users: Table<User>, actor: nat, edges: seq<nat>,
                                            search: Option<User -> bool>)
    requires follows.Valid() && forall k :: k in edges ==> k in follows.rows
    ensures FollowerList(follows, users, actor, edges, search).None? <==>
              search.Some? && exists k :: k in edges && follows.rows[k].followerId !in users.rows
    ensures FollowerList(follows, users, actor, edges, search).Some? ==>
              var d := FollowerList(follows, users, actor, edges, search).value;
              |d| <= |edges| &&
              (forall e :: e in d ==>
                 e.id in users.rows && (search.Some? ==> search.value(users.rows[e.id])) &&
                 (e.isFollowing <==> Follow(e.id, actor) in follows.Values()) &&
                 exists k :: k in edges && follows.rows[k].followerId == e.id) &&
              (forall k ::
                 (k in edges && follows.rows[k].followerId in users.rows &&
                  (search.Some? ==> search.value(users.rows[follows.rows[k].followerId]))) ==>
                 EntryFor(follows, users, actor, follows.rows[k].followerId) in d)
    decreases |edges|
  {
    if edges != [] {
      var init, last := edges[..|edges| - 1], edges[|edges| - 1];
      FollowerListSpec(follows, users, actor, init, search);
      assert edges == init + [last];
      assert last in edges;
      var r := FollowerList(follows, users, actor, edges, search);
      var f := follows.rows[last].followerId;
      if r.Some? {
        var d0 := FollowerList(follows, users, actor, init, search).value;
        var d := r.value;
        forall e | e in d ensures exists k :: k in edges && follows.rows[k].followerId == e.id {
          if e in d0 {
            var k :| k in init && follows.rows[k].followerId == e.id;
            assert k in edges;
          }
        }
        forall k | k in edges && follows.rows[k].followerId in users.rows &&
                   (search.Some? ==> search.value(users.rows[follows.rows[k].followerId]))
          ensures EntryFor(follows, users, actor, follows.rows[k].followerId) in d
        {
          if k != last {
            assert k in init;
          }
        }
      } else if FollowerList(follows, users, actor, init, search).Some? {
        assert search.Some? && f !in users.rows;
      }
    }
  }

  /** The edges into `userId`. */
  function FollowersOf(userId: nat): Follow -> bool
  {
    (e: Follow) => e.userId == userId
  }

  /** The loop that builds the listing. */
  method Followers(follows: Table<Follow>, users: Table<User>, actor: nat, edges: seq<nat>,
                   search: Option<User -> bool>) returns (r: Option<seq<FollowerEntry>>)
    requires follows.Valid() && forall k :: k in edges ==> k in follows.rows
    ensures r == FollowerList(follows, users, actor, edges, search)
  {
    var data := [];
    for i := 0 to |edges|
      invariant FollowerList(follows, users, actor, edges[..i], search) == Some(data)
    {
      assert edges[..i + 1][..i] == edges[..i];
      var f := follows.rows[edges[i]].followerId;
      if f !in users.rows {
        if search.Some? {
          FollowerListStaysNone(follows, users, actor, edges, search, i + 1);
          return None;
        }
      } else if search.None? || search.value(users.rows[f]) {
        data := data + [EntryFor(follows, users, actor, f)];
      }
    }
    assert edges[..|edges|] == edges;
    r := Some(data);
  }

  /** Once the listing has failed on a prefix, it fails on the whole list. */
  lemma {:induction false} FollowerListStaysNone(follows: Table<Follow>, users: Table<User>, actor: nat, edges: seq<nat>,
                                                 search: Option<User -> bool>, n: nat)
    requires follows.Valid() && forall k :: k in edges ==> k in follows.rows
    requires n <= |edges| && FollowerList(follows, users, actor, edges[..n], search).None?
    ensures FollowerList(follows, users, actor, edges, search).None?
    decreases |edges| - n
  {
    if n < |edges| {
      assert edges[..n + 1][..n] == edges[..n];
      FollowerListStaysNone(follows, users, actor, edges, search, n + 1);
    } else {
      assert edges[..n] == edges;
    }
  }

  /** `getUserFollowers`: 404 for an unknown user, otherwise the listing over
      the user's follower edges in table order. */
  method GetUserFollowers(db: Database, actor: nat, id: nat, search: Option<User -> bool>)
    returns (out: Outcome, data: seq<FollowerEntry>)
    requires db.follows.Valid()
    ensures var r := FollowerList(db.follows, db.users, actor, db.follows.Where(FollowersOf(id)), search);
            out == if id !in db.users.rows then Code(404) else if r.None? then Crash else Code(200)
    ensures out == Code(200) ==>
              data == FollowerList(db.follows, db.users, actor, db.follows.Where(FollowersOf(id)), search).value
    ensures out != Code(200) ==> data == []
  {
    if id !in db.users.rows {
      return Code(404), [];
    }
    var r := Followers(db.follows, db.users, actor, db.follows.Where(FollowersOf(id)), search);
    if r.None? {
      return Crash, [];
    }
    return Code(200), r.value;
  }

  /** Every listed follower really follows `id`. */
  lemma ListedFollowersFollow(follows: Table<Follow>, users: Table<User>, actor: nat, id: nat,
                              search: Option<User -> bool>)
    requires follows.Valid()
    requires FollowerList(follows, users, actor, follows.Where(FollowersOf(id)), search).Some?
    ensures forall e :: e in FollowerList(follows, users, actor, follows.Where(FollowersOf(id)), search).value ==>
              Follow(id, e.id) in follows.Values() && e.id in users.rows
  {
    var edges := follows.Where(FollowersOf(id));
    FollowerListSpec(follows, users, actor, edges, search);
    forall e | e in FollowerList(follows, users, actor, edges, search).value
      ensures Follow(id, e.id) in follows.Values()
    {
      var k :| k in edges && follows.rows[k].followerId == e.id;
      assert FollowersOf(id)(follows.rows[k]);
      assert follows.rows[k] == Follow(id, e.id);
    }
  }
}
