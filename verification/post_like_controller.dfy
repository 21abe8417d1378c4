/** Likes: one per (user, post), guarded by the post's visibility. */
module PostLikeController {
  import opened Tables
  import opened Schema
  import PostController

  /** `likePost`: 404 for an unknown post; a private post may be liked only
      by its author or a global admin (status 401 with HTTP 403); a second
      like is refused with 400; otherwise the like is added. */
  method LikePost(db: Database, actor: nat, id: nat) returns (out: Outcome)
    requires db.Valid() && NoDup(db.likes) && actor in db.users.rows
    modifies db`likes
    ensures db.Valid() && NoDup(db.likes)
    ensures out == if id !in db.posts.rows then Code(404)
                   else if !PostController.MayView(db.posts.rows[id], actor, db.users.rows[actor]) then Respond(401, 403)
                   else if Like(actor, id) in old(db.likes.Values()) then Code(400)
                   else Code(200)
    ensures out == Code(200) ==> db.likes == old(db.likes).Insert(Like(actor, id)) &&
                                 db.likes.Values() == old(db.likes.Values()) + {Like(actor, id)}
    ensures out != Code(200) ==> db.likes == old(db.likes)
  {
    if id !in db.posts.rows {
      return Code(404);
    }
    if !PostController.MayView(db.posts.rows[id], actor, db.users.rows[actor]) {
      return Respond(401, 403);
    }
    var r := Like(actor, id);
    if Find(db.likes, r).Some? {
      return Code(400);
    }
    InsertFresh(db.likes, r);
    db.SetLikes(db.likes.Insert(r));
    out := Code(200);
  }

  /** `unlikePost`: the same 404 and visibility checks; 400 when the actor
      has not liked the post; otherwise that like row is deleted. */
  method UnlikePost(db: Database, actor: nat, id: nat) returns (out: Outcome)
    requires db.Valid() && NoDup(db.likes) && actor in db.users.rows
    modifies db`likes
    ensures db.Valid() && NoDup(db.likes)
    ensures out == if id !in db.posts.rows then Code(404)
                   else if !PostController.MayView(db.posts.rows[id], actor, db.users.rows[actor]) then Respond(401, 403)
                   else if Like(actor, id) !in old(db.likes.Values()) then Code(400)
                   else Code(200)
    ensures out == Code(200) ==> db.likes == old(db.likes).Delete(Find(old(db.likes), Like(actor, id)).value) &&
                                 db.likes.Values() == old(db.likes.Values()) - {Like(actor, id)}
    ensures out != Code(200) ==> db.likes == old(db.likes)
  {
    if id !in db.posts.rows {
      return Code(404);
    }
    if !PostController.MayView(db.posts.rows[id], actor, db.users.rows[actor]) {
      return Respond(401, 403);
    }
    var r := Like(actor, id);
    var k := Find(db.likes, r);
    if k.None? {
      return Code(400);
    }
    FlipSpec(db.likes, r);
    db.SetLikes(db.likes.Delete(k.value));
    out := Code(200);
  }

  /** A like followed by an unlike of the same post gives back exactly the
      rows the likes table had before. */
  lemma {:induction false} LikeThenUnlike(likes: Table<Like>, actor: nat, id: nat)
    requires likes.Valid() && Like(actor, id) !in likes.Values()
    ensures var t := likes.Insert(Like(actor, id));
            Like(actor, id) in t.Values() &&
            t.Delete(Find(t, Like(actor, id)).value).rows == likes.rows
  {
    FindInserted(likes, Like(actor, id));
    var t := likes.Insert(Like(actor, id));
    assert t.rows[likes.next] == Like(actor, id);
  }
}
