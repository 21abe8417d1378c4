/** Comments on posts: the threaded listing, commenting, replying, the
    soft delete that blanks the text, and the hard delete. */
module CommentController {
  import opened Tables
  import opened Schema

  /** Comments on `postId` that answer no other comment. */
  function TopLevelOn(postId: nat): Comment -> bool
  {
    (c: Comment) => c.replyTo.None? && c.postId == postId
  }

  /** Comments whose `reply_cmt_id` is `parent`, whatever their post. */
  function RepliesTo(parent: nat): Comment -> bool
  {
    (c: Comment) => c.replyTo == Some(parent)
  }

  /** A comment as listed, with its author's display name and picture. */
  datatype CommentView = CommentView(commentId: nat, comment: Comment, userName: string, userPfImgUrl: string)

  /** A top-level comment and its replies. */
  datatype Thread = Thread(top: CommentView, replies: seq<CommentView>)

  /** The author's name and picture; an author who no longer exists is
      shown as "Unknown" with no picture. */
  function View(comments: Table<Comment>, users: Table<User>, k: nat): (v: CommentView)
    requires k in comments.rows
    ensures v.commentId == k && v.comment == comments.rows[k]
    ensures comments.rows[k].userId !in users.rows ==> v.userName == "Unknown" && v.userPfImgUrl == ""
    ensures comments.rows[k].userId in users.rows ==>
              v.userPfImgUrl == users.rows[comments.rows[k].userId].pfImgUrl &&
              v.userName == users.rows[comments.rows[k].userId].firstName + " " + users.rows[comments.rows[k].userId].lastName
  {
    var c := comments.rows[k];
    if c.userId in users.rows
    then CommentView(k, c, users.rows[c.userId].firstName + " " + users.rows[c.userId].lastName,
                     users.rows[c.userId].pfImgUrl)
    else CommentView(k, c, "Unknown", "")
  }

  /** The ids of the top-level comments of a post, newest first. */
  function TopIds(comments: Table<Comment>, postId: nat): (ids: seq<nat>)
    requires comments.Valid()
    ensures forall k :: k in ids <==> k in comments.rows && TopLevelOn(postId)(comments.rows[k])
    ensures forall i, j :: 0 <= i < j < |ids| ==> ids[i] > ids[j]
  {
    var asc := comments.Where(TopLevelOn(postId));
    var r := Reverse(asc);
    assert forall k :: k in r <==> k in asc by {
      forall k ensures k in r <==> k in asc {
        if k in asc {
          var i :| 0 <= i < |asc| && asc[i] == k;
          assert r[|asc| - 1 - i] == k;
        }
      }
    }
    r
  }

  /** The ids of the replies to `parent`, oldest first. */
  function ReplyIds(comments: Table<Comment>, parent: nat): (ids: seq<nat>)
    requires comments.Valid()
    ensures forall k :: k in ids <==> k in comments.rows && comments.rows[k].replyTo == Some(parent)
    ensures Increasing(ids)
  {
    comments.Where(RepliesTo(parent))
  }

  function Views(comments: Table<Comment>, users: Table<User>, ids: seq<nat>): (vs: seq<CommentView>)
    requires forall k :: k in ids ==> k in comments.rows
    ensures |vs| == |ids|
    ensures forall i :: 0 <= i < |ids| ==> vs[i] == View(comments, users, ids[i])
  {
    seq(|ids|, i requires 0 <= i < |ids| => View(comments, users, ids[i]))
  }

  /** A top-level comment with the views of its replies. */
  function ThreadOf(comments: Table<Comment>, users: Table<User>, k: nat): (t: Thread)
    requires comments.Valid() && k in comments.rows
    ensures t.top.commentId == k && t.top.comment == comments.rows[k]
    ensures |t.replies| == |ReplyIds(comments, k)|
    ensures forall j :: 0 <= j < |t.replies| ==> t.replies[j].commentId == ReplyIds(comments, k)[j]
  {
    Thread(View(comments, users, k), Views(comments, users, ReplyIds(comments, k)))
  }

  /** `index`: one thread per top-level comment of the post, newest first. */
  function Index(comments: Table<Comment>, users: Table<User>, postId: nat): (threads: seq<Thread>)
    requires comments.Valid()
    ensures |threads| == |TopIds(comments, postId)|
    ensures forall i :: 0 <= i < |threads| ==> threads[i] == ThreadOf(comments, users, TopIds(comments, postId)[i])
  {
    var tops := TopIds(comments, postId);
    seq(|tops|, i requires 0 <= i < |tops| => ThreadOf(comments, users, tops[i]))
  }

  /** The listing's threads are exactly the post's top-level comments,
      newest first, each shown as stored. */
  lemma IndexTopLevel(comments: Table<Comment>, users: Table<User>, postId: nat)
    requires comments.Valid()
    ensures forall i :: 0 <= i < |Index(comments, users, postId)| ==>
              var k := Index(comments, users, postId)[i].top.commentId;
              k in comments.rows && comments.rows[k].replyTo.None? && comments.rows[k].postId == postId &&
              Index(comments, users, postId)[i].top.comment == comments.rows[k]
    ensures forall k :: k in comments.rows && comments.rows[k].replyTo.None? && comments.rows[k].postId == postId ==>
              exists i :: 0 <= i < |Index(comments, users, postId)| && Index(comments, users, postId)[i].top.commentId == k
    ensures forall i, j :: 0 <= i < j < |Index(comments, users, postId)| ==>
              Index(comments, users, postId)[i].top.commentId > Index(comments, users, postId)[j].top.commentId
  {
    var threads, tops := Index(comments, users, postId), TopIds(comments, postId);
    forall i | 0 <= i < |threads|
      ensures threads[i].top.commentId in comments.rows
      ensures TopLevelOn(postId)(comments.rows[threads[i].top.commentId])
    {
      assert tops[i] in tops;
    }
    forall k | k in comments.rows && comments.rows[k].replyTo.None? && comments.rows[k].postId == postId
      ensures exists i :: 0 <= i < |threads| && threads[i].top.commentId == k
    {
      assert TopLevelOn(postId)(comments.rows[k]);
      var i :| 0 <= i < |tops| && tops[i] == k;
      assert threads[i].top.commentId == k;
    }
  }

  /** A thread's replies are exactly the comments naming its top comment as
      parent, oldest first. */
  lemma ThreadReplies(comments: Table<Comment>, users: Table<User>, p: nat)
    requires comments.Valid() && p in comments.rows
    ensures forall r :: r in ThreadOf(comments, users, p).replies ==>
              r.commentId in comments.rows && comments.rows[r.commentId].replyTo == Some(p)
    ensures forall k :: k in comments.rows && comments.rows[k].replyTo == Some(p) ==>
              exists j :: 0 <= j < |ThreadOf(comments, users, p).replies| &&
                          ThreadOf(comments, users, p).replies[j].commentId == k
    ensures forall a, b :: 0 <= a < b < |ThreadOf(comments, users, p).replies| ==>
              ThreadOf(comments, users, p).replies[a].commentId < ThreadOf(comments, users, p).replies[b].commentId
  {
    var t, ids := ThreadOf(comments, users, p), ReplyIds(comments, p);
    forall r | r in t.replies
      ensures r.commentId in comments.rows && comments.rows[r.commentId].replyTo == Some(p)
    {
      var j :| 0 <= j < |t.replies| && t.replies[j] == r;
      assert ids[j] in ids;
    }
    forall k | k in comments.rows && comments.rows[k].replyTo == Some(p)
      ensures exists j :: 0 <= j < |t.replies| && t.replies[j].commentId == k
    {
      var j :| 0 <= j < |ids| && ids[j] == k;
      assert t.replies[j].commentId == k;
    }
  }

  /** Whether comment `k` appears among the replies of some thread. */
  ghost predicate ShownAsReply(threads: seq<Thread>, k: nat)
  {
    exists i, j :: 0 <= i < |threads| && 0 <= j < |threads[i].replies| && threads[i].replies[j].commentId == k
  }

  /** A comment is shown as a reply in a post's listing exactly when it
      answers an existing top-level comment of that post. */
  lemma ShownAsReplyIff(comments: Table<Comment>, users: Table<User>, postId: nat, k: nat)
    requires comments.Valid() && k in comments.rows
    ensures ShownAsReply(Index(comments, users, postId), k)
        <==> (comments.rows[k].replyTo.Some? && comments.rows[k].replyTo.value in comments.rows &&
              TopLevelOn(postId)(comments.rows[comments.rows[k].replyTo.value]))
  {
    var threads, tops := Index(comments, users, postId), TopIds(comments, postId);
    if comments.rows[k].replyTo.Some? && comments.rows[k].replyTo.value in comments.rows &&
       TopLevelOn(postId)(comments.rows[comments.rows[k].replyTo.value]) {
      var p := comments.rows[k].replyTo.value;
      var i :| 0 <= i < |tops| && tops[i] == p;
      var ids := ReplyIds(comments, p);
      var j :| 0 <= j < |ids| && ids[j] == k;
      assert threads[i].replies[j].commentId == k;
    }
    if ShownAsReply(threads, k) {
      var i, j :| 0 <= i < |threads| && 0 <= j < |threads[i].replies| && threads[i].replies[j].commentId == k;
      var ids := ReplyIds(comments, tops[i]);
      assert ids[j] in ids && tops[i] in tops;
    }
  }

  /** A reply to a reply, or to a comment that is gone, is never shown:
      neither as a thread nor as a reply. */
  lemma NestedReplyHidden(comments: Table<Comment>, users: Table<User>, postId: nat, k: nat)
    requires comments.Valid() && k in comments.rows && comments.rows[k].replyTo.Some?
    requires comments.rows[k].replyTo.value !in comments.rows ||
             comments.rows[comments.rows[k].replyTo.value].replyTo.Some?
    ensures !ShownAsReply(Index(comments, users, postId), k)
    ensures forall i :: 0 <= i < |Index(comments, users, postId)| ==> Index(comments, users, postId)[i].top.commentId != k
  {
    ShownAsReplyIff(comments, users, postId, k);
    IndexTopLevel(comments, users, postId);
  }

  /** The `store` validation: some text, an existing post, and a parent
      that, when given, is an existing comment of any post. */
  predicate StoreInputOk(db: Database, text: string, postId: Option<int>, replyTo: Option<int>)
    reads db
  {
    text != "" && postId.Some? && postId.value >= 0 && postId.value in db.posts.rows &&
    (replyTo.None? || (replyTo.value >= 0 && replyTo.value in db.comments.rows))
  }

  /** `store`: 422 on invalid input; otherwise the comment is added as
      given.  The parent is not required to belong to the same post. */
  method Store(db: Database, actor: nat, text: string, postId: Option<int>, replyTo: Option<int>)
    returns (out: Outcome)
    requires db.Valid()
    modifies db`comments
    ensures db.Valid()
    ensures out == if StoreInputOk(db, text, postId, replyTo) then Code(200) else Code(422)
    ensures out == Code(200) ==>
      db.comments == old(db.comments).Insert(Comment(actor, postId.value, text,
                                                     if replyTo.None? then None else Some(replyTo.value)))
    ensures out != Code(200) ==> db.comments == old(db.comments)
  {
    if !StoreInputOk(db, text, postId, replyTo) {
      return Code(422);
    }
    var parent: Option<nat> := if replyTo.None? then None else Some(replyTo.value);
    db.SetComments(db.comments.Insert(Comment(actor, postId.value, text, parent)));
    out := Code(200);
  }

  /** `reply`: 422 without text, 404 for an unknown parent (`findOrFail`);
      the reply takes the parent's post and names the parent. */
  method Reply(db: Database, actor: nat, id: nat, text: string) returns (out: Outcome)
    requires db.Valid()
    modifies db`comments
    ensures db.Valid()
    ensures out == if text == "" then Code(422) else if id !in old(db.comments.rows) then Code(404) else Code(200)
    ensures out == Code(200) ==>
      db.comments == old(db.comments).Insert(Comment(actor, old(db.comments.rows[id]).postId, text, Some(id)))
    ensures out != Code(200) ==> db.comments == old(db.comments)
  {
    if text == "" {
      return Code(422);
    }
    if id !in db.comments.rows {
      return Code(404);
    }
    var parent := db.comments.rows[id];
    db.SetComments(db.comments.Insert(Comment(actor, parent.postId, text, Some(id))));
    out := Code(200);
  }

  /** A reply to a top-level comment is listed under that comment on the
      parent's post, as its newest reply. */
  lemma ReplyListed(comments: Table<Comment>, users: Table<User>, parent: nat, actor: nat, text: string)
    requires comments.Valid() && parent in comments.rows && comments.rows[parent].replyTo.None?
    ensures var after := comments.Insert(Comment(actor, comments.rows[parent].postId, text, Some(parent)));
            var t := ThreadOf(after, users, parent);
            parent in TopIds(after, comments.rows[parent].postId) &&
            |t.replies| > 0 && t.replies[|t.replies| - 1].commentId == comments.next
  {
    var postId := comments.rows[parent].postId;
    var after := comments.Insert(Comment(actor, postId, text, Some(parent)));
    assert after.rows[parent] == comments.rows[parent];
    assert TopLevelOn(postId)(after.rows[parent]);
    var ids := ReplyIds(after, parent);
    assert comments.next in ids;
    var j :| 0 <= j < |ids| && ids[j] == comments.next;
    assert ids[|ids| - 1] in ids;
  }

  /** `destroy`: 404 for an unknown comment or post; allowed for a global
      admin, the comment's author or the post's author (401 otherwise); the
      row stays, only its text is blanked. */
  method Destroy(db: Database, actor: nat, id: nat) returns (out: Outcome)
    requires db.Valid() && actor in db.users.rows
    modifies db`comments
    ensures db.Valid()
    ensures out == if id !in old(db.comments.rows) then Code(404)
                   else if old(db.comments.rows[id]).postId !in db.posts.rows then Code(404)
                   else if db.users.rows[actor].role != ADMIN && actor != old(db.comments.rows[id]).userId &&
                           actor != db.posts.rows[old(db.comments.rows[id]).postId].userId then Code(401)
                   else Code(200)
    ensures out == Code(200) ==> db.comments == old(db.comments).Put(id, old(db.comments.rows[id]).(text := ""))
    ensures out != Code(200) ==> db.comments == old(db.comments)
  {
    if id !in db.comments.rows {
      return Code(404);
    }
    var c := db.comments.rows[id];
    if c.postId !in db.posts.rows {
      return Code(404);
    }
    if db.users.rows[actor].role != ADMIN && actor != c.userId && actor != db.posts.rows[c.postId].userId {
      return Code(401);
    }
    db.SetComments(db.comments.Put(id, c.(text := "")));
    out := Code(200);
  }

  /** Blanking a comment's text leaves every post's threads and every
      comment's replies as they were. */
  lemma RedactKeepsThreads(comments: Table<Comment>, id: nat, postId: nat, parent: nat)
    requires comments.Valid() && id in comments.rows
    ensures TopIds(comments.Put(id, comments.rows[id].(text := "")), postId) == TopIds(comments, postId)
    ensures ReplyIds(comments.Put(id, comments.rows[id].(text := "")), parent) == ReplyIds(comments, parent)
  {
    var after := comments.Put(id, comments.rows[id].(text := ""));
    WhereSame(after, comments, TopLevelOn(postId), TopLevelOn(postId));
    WhereSame(after, comments, RepliesTo(parent), RepliesTo(parent));
  }

  /** `adminDestroy`: 404 for an unknown comment, otherwise the row itself
      is deleted; its replies stay, naming a comment that is gone. */
  method AdminDestroy(db: Database, id: nat) returns (out: Outcome)
    requires db.Valid()
    modifies db`comments
    ensures db.Valid()
    ensures out == if id in old(db.comments.rows) then Code(200) else Code(404)
    ensures out == Code(200) ==> db.comments == old(db.comments).Delete(id)
    ensures out != Code(200) ==> db.comments == old(db.comments)
  {
    if id !in db.comments.rows {
      return Code(404);
    }
    db.SetComments(db.comments.Delete(id));
    out := Code(200);
  }

  /** After a hard delete the replies of the deleted comment are still in
      the table but no listing shows them. */
  lemma AdminDestroyOrphansReplies(comments: Table<Comment>, users: Table<User>, id: nat, k: nat, postId: nat)
    requires comments.Valid() && k in comments.rows && k != id && comments.rows[k].replyTo == Some(id)
    ensures k in comments.Delete(id).rows
    ensures !ShownAsReply(Index(comments.Delete(id), users, postId), k)
    ensures forall i :: 0 <= i < |Index(comments.Delete(id), users, postId)| ==>
              Index(comments.Delete(id), users, postId)[i].top.commentId != k
  {
    NestedReplyHidden(comments.Delete(id), users, postId, k);
  }
}
