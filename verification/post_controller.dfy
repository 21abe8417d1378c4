/** Posts: creation with status inheritance and tag links, tag replacement
    on update, who may see a post, the public feed, related posts and
    deletion. */
module PostController {
  import opened Tables
  import opened Schema

  /** PHP's loose `group_id != null`: an absent id and the id 0 both mean
      "no group". */
  predicate HasGroup(p: Post)
  {
    p.groupId.Some? && p.groupId.value != 0
  }

  function IsPublic(): Post -> bool
  {
    (p: Post) => p.status == PUBLIC
  }

  /** Tag links of `postId`. */
  function LinksOf(postId: nat): PostTag -> bool
  {
    (l: PostTag) => l.postId == postId
  }

  /** Tag links to `tagId`. */
  function LinksTo(tagId: nat): PostTag -> bool
  {
    (l: PostTag) => l.tagId == tagId
  }

  /** The request's tag field after `json_decode`: absent, something other
      than a JSON array (which `count` refuses), or a list of ids. */
  datatype TagsField = Absent | NotArray | Ids(ids: seq<int>)

  /** The `for` loop over the decoded tag ids: one link (postId, id), in the
      order given, for each id that names an existing tag.  Repeated ids give
      repeated links. */
  function Linked(postTags: Table<PostTag>, tags: Table<Tag>, postId: nat, ids: seq<int>): Table<PostTag>
    decreases |ids|
  {
    if ids == [] then postTags
    else
      var t := Linked(postTags, tags, postId, ids[..|ids| - 1]);
      var x := ids[|ids| - 1];
      if x >= 0 && x as nat in tags.rows then t.Insert(PostTag(postId, x as nat)) else t
  }

  /** Linking keeps every existing row, and the new rows are exactly links
      from `postId` to the listed ids that name existing tags. */
  lemma {:induction false} LinkedSpec(postTags: Table<PostTag>, tags: Table<Tag>, postId: nat, ids: seq<int>)
    requires postTags.Valid()
    ensures Linked(postTags, tags, postId, ids).Valid()
    ensures Linked(postTags, tags, postId, ids).next >= postTags.next
    ensures forall k :: k in postTags.rows ==>
              k in Linked(postTags, tags, postId, ids).rows &&
              Linked(postTags, tags, postId, ids).rows[k] == postTags.rows[k]
    ensures forall k :: k in Linked(postTags, tags, postId, ids).rows && k !in postTags.rows ==>
              var l := Linked(postTags, tags, postId, ids).rows[k];
              l.postId == postId && l.tagId in tags.rows && l.tagId as int in ids
    ensures forall x :: x in ids && x >= 0 && x as nat in tags.rows ==>
              PostTag(postId, x as nat) in Linked(postTags, tags, postId, ids).Values()
    decreases |ids|
  {
    if ids != [] {
      var init, x := ids[..|ids| - 1], ids[|ids| - 1];
      LinkedSpec(postTags, tags, postId, init);
      var t := Linked(postTags, tags, postId, init);
      var u := Linked(postTags, tags, postId, ids);
      assert ids == init + [x];
      if x >= 0 && x as nat in tags.rows {
        assert u == t.Insert(PostTag(postId, x as nat));
        assert u.rows[t.next] == PostTag(postId, x as nat);
        forall y | y in ids && y >= 0 && y as nat in tags.rows
          ensures PostTag(postId, y as nat) in u.Values()
        {
          if y != x {
            assert y in init;
            var k :| k in t.rows && t.rows[k] == PostTag(postId, y as nat);
            assert u.rows[k] == t.rows[k];
          }
        }
      } else {
        assert u == t;
        forall y | y in ids && y >= 0 && y as nat in tags.rows
          ensures y in init
        {
        }
      }
    }
  }

  /** The tag-link loop of `store` and `update`. */
  method LinkTags(postTags: Table<PostTag>, tags: Table<Tag>, postId: nat, ids: seq<int>)
    returns (t: Table<PostTag>)
    ensures t == Linked(postTags, tags, postId, ids)
  {
    t := postTags;
    for i := 0 to |ids|
      invariant t == Linked(postTags, tags, postId, ids[..i])
    {
      assert ids[..i + 1][..i] == ids[..i];
      if ids[i] >= 0 && ids[i] as nat in tags.rows {
        t := t.Insert(PostTag(postId, ids[i] as nat));
      }
    }
    assert ids[..|ids|] == ids;
  }

  /** The group a new post is filed under: the requested id as stored. */
  function StoredGroup(groupId: Option<int>): Option<nat>
  {
    if groupId.Some? && groupId.value >= 0 then Some(groupId.value as nat) else None
  }

  /** A `group_id` that passes the loose `!= null` test. */
  predicate GroupGiven(groupId: Option<int>)
  {
    groupId.Some? && groupId.value != 0
  }

  /** The validator and the status check of `store`. */
  predicate StoreInputOk(title: string, description: string, status: string)
  {
    |title| <= 255 && |description| <= 1000 && status in {PUBLIC, PRIVATE}
  }

  /** `store`: 400 for bad input, 404 for a named group that does not exist;
      the post takes the group's status when it is in a group.  The post is
      saved before the tag field is decoded, so a tag field that is not a
      JSON array ends in an error with the post already created and no
      links. */
  method Store(db: Database, actor: nat, groupId: Option<int>, title: string, description: string,
               imgUrl: string, status: string, tagsField: TagsField)
    returns (out: Outcome)
    requires db.Valid()
    modifies db`posts, db`postTags
    ensures db.Valid()
    ensures out == if !StoreInputOk(title, description, status) then Code(400)
                   else if GroupGiven(groupId) && (groupId.value < 0 || groupId.value as nat !in db.groups.rows) then Code(404)
                   else if !tagsField.Ids? then Crash
                   else Code(201)
    ensures out in {Crash, Code(201)} ==>
              var s := if GroupGiven(groupId) then db.groups.rows[groupId.value as nat].status else status;
              db.posts == old(db.posts).Insert(Post(actor, StoredGroup(groupId), title, description, imgUrl, s))
    ensures out in {Crash, Code(201)} ==>
              old(db.posts.next) in db.posts.rows && old(db.posts.next) !in old(db.posts.rows) &&
              db.posts.rows[old(db.posts.next)].status ==
                (if GroupGiven(groupId) then db.groups.rows[groupId.value as nat].status else status)
    ensures out == Code(201) ==> db.postTags == Linked(old(db.postTags), db.tags, old(db.posts.next), tagsField.ids)
    ensures out !in {Crash, Code(201)} ==> db.posts == old(db.posts)
    ensures out != Code(201) ==> db.postTags == old(db.postTags)
  {
    if !StoreInputOk(title, description, status) {
      return Code(400);
    }
    var s := status;
    if GroupGiven(groupId) {
      if groupId.value < 0 || groupId.value as nat !in db.groups.rows {
        return Code(404);
      }
      s := db.groups.rows[groupId.value as nat].status;
    }
    var postId := db.posts.next;
    db.SetPosts(db.posts.Insert(Post(actor, StoredGroup(groupId), title, description, imgUrl, s)));
    if !tagsField.Ids? {
      return Crash;
    }
    var links := LinkTags(db.postTags, db.tags, postId, tagsField.ids);
    LinkedSpec(db.postTags, db.tags, postId, tagsField.ids);
    db.SetPostTags(links);
    out := Code(201);
  }

  /** After the old links of `postId` are deleted and the new ones added,
      the post's links are exactly links to the listed ids that name
      existing tags, and every other post's links are untouched. */
  lemma {:induction false} ReplacedLinks(postTags: Table<PostTag>, tags: Table<Tag>, postId: nat, ids: seq<int>)
    requires postTags.Valid()
    ensures var t := Linked(postTags.DeleteWhere(LinksOf(postId)), tags, postId, ids);
            t.Valid() &&
            (forall k :: k in t.rows && t.rows[k].postId == postId ==>
               t.rows[k].tagId in tags.rows && t.rows[k].tagId as int in ids) &&
            (forall x :: x in ids && x >= 0 && x as nat in tags.rows ==> PostTag(postId, x as nat) in t.Values()) &&
            (forall k :: k in postTags.rows && postTags.rows[k].postId != postId ==>
               k in t.rows && t.rows[k] == postTags.rows[k])
  {
    var d := postTags.DeleteWhere(LinksOf(postId));
    LinkedSpec(d, tags, postId, ids);
    var t := Linked(d, tags, postId, ids);
    forall k | k in t.rows && t.rows[k].postId == postId
      ensures t.rows[k].tagId in tags.rows && t.rows[k].tagId as int in ids
    {
    }
    forall k | k in postTags.rows && postTags.rows[k].postId != postId
      ensures k in t.rows && t.rows[k] == postTags.rows[k]
    {
      assert !LinksOf(postId)(postTags.rows[k]);
    }
  }

  /** The validator and the status check of `update`. */
  predicate UpdateInputOk(description: string, imgUrl: string, status: string, tagsField: TagsField)
  {
    |description| <= 255 && imgUrl != "" && !tagsField.Absent? && status in {PUBLIC, PRIVATE}
  }

  /** `update`: 404, the post policy (`mayUpdate`, not part of this model),
      400 for bad input; then the post's old links are deleted before the tag
      field is decoded, so a field that is not a JSON array ends in an error
      with the links gone and the post's columns unchanged.  Otherwise the
      new links are added and the columns written. */
  method Update(db: Database, id: nat, mayUpdate: bool, title: string, description: string,
                imgUrl: string, status: string, tagsField: TagsField)
    returns (out: Outcome)
    requires db.Valid()
    modifies db`posts, db`postTags
    ensures db.Valid()
    ensures out == if id !in old(db.posts.rows) then Code(404)
                   else if !mayUpdate then Code(403)
                   else if !UpdateInputOk(description, imgUrl, status, tagsField) then Code(400)
                   else if tagsField.NotArray? then Crash
                   else Code(200)
    ensures out in {Crash, Code(200)} ==>
              var d := old(db.postTags).DeleteWhere(LinksOf(id));
              db.postTags == if out == Crash then d else Linked(d, db.tags, id, tagsField.ids)
    ensures out == Code(200) ==>
              var p := old(db.posts.rows[id]);
              db.posts == old(db.posts).Put(id, p.(title := title, description := description,
                                                  imgUrl := imgUrl, status := status))
    ensures out != Code(200) ==> db.posts == old(db.posts)
    ensures out !in {Crash, Code(200)} ==> db.postTags == old(db.postTags)
  {
    if id !in db.posts.rows {
      return Code(404);
    }
    if !mayUpdate {
      return Code(403);
    }
    if !UpdateInputOk(description, imgUrl, status, tagsField) {
      return Code(400);
    }
    var p := db.posts.rows[id];
    db.SetPostTags(db.postTags.DeleteWhere(LinksOf(id)));
    if tagsField.NotArray? {
      return Crash;
    }
    var links := LinkTags(db.postTags, db.tags, id, tagsField.ids);
    LinkedSpec(db.postTags, db.tags, id, tagsField.ids);
    db.SetPostTags(links);
    db.SetPosts(db.posts.Put(id, p.(title := title, description := description, imgUrl := imgUrl, status := status)));
    out := Code(200);
  }

  /** A tag as listed with a post. */
  datatype TagRef = TagRef(tagId: nat, name: string)

  /** The tag-detail loop of `show`: for each link, its tag if the tag still
      exists. */
  function TagRefs(postTags: Table<PostTag>, tags: Table<Tag>, links: seq<nat>): seq<TagRef>
    requires forall k :: k in links ==> k in postTags.rows
    decreases |links|
  {
    if links == [] then []
    else
      var init := links[..|links| - 1];
      var t := postTags.rows[links[|links| - 1]].tagId;
      TagRefs(postTags, tags, init) + (if t in tags.rows then [TagRef(t, tags.rows[t].name)] else [])
  }

  /** Every listed tag exists, carries its name and is linked by one of the
      links; every link to an existing tag is listed. */
  lemma {:induction false} TagRefsSpec(postTags: Table<PostTag>, tags: Table<Tag>, links: seq<nat>)
    requires forall k :: k in links ==> k in postTags.rows
    ensures |TagRefs(postTags, tags, links)| <= |links|
    ensures forall r :: r in TagRefs(postTags, tags, links) ==>
              r.tagId in tags.rows && r.name == tags.rows[r.tagId].name &&
              exists k :: k in links && postTags.rows[k].tagId == r.tagId
    ensures forall k :: k in links && postTags.rows[k].tagId in tags.rows ==>
              TagRef(postTags.rows[k].tagId, tags.rows[postTags.rows[k].tagId].name) in TagRefs(postTags, tags, links)
    decreases |links|
  {
    if links != [] {
      var init, last := links[..|links| - 1], links[|links| - 1];
      TagRefsSpec(postTags, tags, init);
      assert links == init + [last];
      forall r | r in TagRefs(postTags, tags, links)
        ensures exists k :: k in links && postTags.rows[k].tagId == r.tagId
      {
        if r in TagRefs(postTags, tags, init) {
          var k :| k in init && postTags.rows[k].tagId == r.tagId;
          assert k in links;
        } else {
          assert last in links;
        }
      }
    }
  }

  /** The loop that fills `tags` in `show`. */
  method TagDetails(postTags: Table<PostTag>, tags: Table<Tag>, links: seq<nat>) returns (refs: seq<TagRef>)
    requires forall k :: k in links ==> k in postTags.rows
    ensures refs == TagRefs(postTags, tags, links)
  {
    refs := [];
    for i := 0 to |links|
      invariant refs == TagRefs(postTags, tags, links[..i])
    {
      assert links[..i + 1][..i] == links[..i];
      var t := postTags.rows[links[i]].tagId;
      if t in tags.rows {
        refs := refs + [TagRef(t, tags.rows[t].name)];
      }
    }
    assert links[..|links|] == links;
  }

  /** `show`'s visibility rule: a private post is for its author and global
      admins only. */
  predicate MayView(p: Post, actor: nat, user: User)
  {
    p.status != PRIVATE || p.userId == actor || user.role == ADMIN
  }

  /** Saved rows of `actor` for `postId`, in any folder. */
  function SavedBy(actor: nat, postId: nat): SavedPost -> bool
  {
    (s: SavedPost) => s.userId == actor && s.postId == postId
  }

  /** Whether `actor` has saved `postId` in some folder. */
  function IsSaved(saved: Table<SavedPost>, actor: nat, postId: nat): (b: bool)
    requires saved.Valid()
    ensures b <==> exists k :: k in saved.rows && saved.rows[k].userId == actor && saved.rows[k].postId == postId
  {
    var b := saved.Any(SavedBy(actor, postId));
    assert !b ==> forall k :: k in saved.rows ==> !SavedBy(actor, postId)(saved.rows[k]);
    b
  }

  /** Likes on `postId`. */
  function LikesOn(postId: nat): Like -> bool
  {
    (l: Like) => l.postId == postId
  }

  /** A post as `show` returns it. */
  datatype PostView = PostView(postId: nat, post: Post, groupTitle: string, tags: seq<TagRef>,
                               likeCount: nat, isLiked: bool, isSaved: bool,
                               userName: string, userPfImgUrl: string)

  /** `show`: 404; a private post seen by someone other than its author or a
      global admin gives status 401 with HTTP 403.  The group title and the
      author are read without a null check, so a post whose group or author
      is gone ends in an error. */
  method Show(db: Database, actor: nat, id: nat) returns (out: Outcome, view: Option<PostView>)
    requires actor in db.users.rows
    requires db.postTags.Valid() && db.likes.Valid() && db.saved.Valid()
    ensures out == if id !in db.posts.rows then Code(404)
                   else if !MayView(db.posts.rows[id], actor, db.users.rows[actor]) then Respond(401, 403)
                   else if HasGroup(db.posts.rows[id]) && db.posts.rows[id].groupId.value !in db.groups.rows then Crash
                   else if db.posts.rows[id].userId !in db.users.rows then Crash
                   else Code(200)
    ensures view.Some? <==> out == Code(200)
    ensures out == Code(200) ==>
              var p := db.posts.rows[id];
              var author := db.users.rows[p.userId];
              var v := view.value;
              v.postId == id && v.post == p &&
              v.groupTitle == (if HasGroup(p) then db.groups.rows[p.groupId.value].title else "") &&
              v.tags == TagRefs(db.postTags, db.tags, db.postTags.Where(LinksOf(id))) &&
              v.likeCount == |db.likes.Matching(LikesOn(id))| &&
              (v.isLiked <==> Like(actor, id) in db.likes.Values()) &&
              (v.isSaved <==> exists k :: k in db.saved.rows && db.saved.rows[k].userId == actor && db.saved.rows[k].postId == id) &&
              v.userName == author.firstName + " " + author.lastName && v.userPfImgUrl == author.pfImgUrl
  {
    if id !in db.posts.rows {
      return Code(404), None;
    }
    var p := db.posts.rows[id];
    if !MayView(p, actor, db.users.rows[actor]) {
      return Respond(401, 403), None;
    }
    if HasGroup(p) && p.groupId.value !in db.groups.rows {
      return Crash, None;
    }
    if p.userId !in db.users.rows {
      return Crash, None;
    }
    var author := db.users.rows[p.userId];
    var groupTitle := if HasGroup(p) then db.groups.rows[p.groupId.value].title else "";
    var refs := TagDetails(db.postTags, db.tags, db.postTags.Where(LinksOf(id)));
    var isLiked := Find(db.likes, Like(actor, id)).Some?;
    view := Some(PostView(id, p, groupTitle, refs, db.likes.Count(LikesOn(id)), isLiked,
                          IsSaved(db.saved, actor, id), author.firstName + " " + author.lastName, author.pfImgUrl));
    out := Code(200);
  }

  /** Every link's post, in link order, when that post exists and is public. */
  function TaggedPublic(postTags: Table<PostTag>, posts: Table<Post>, links: seq<nat>): seq<nat>
    requires forall k :: k in links ==> k in postTags.rows
    decreases |links|
  {
    if links == [] then []
    else
      var p := postTags.rows[links[|links| - 1]].postId;
      TaggedPublic(postTags, posts, links[..|links| - 1]) +
      (if p in posts.rows && posts.rows[p].status == PUBLIC then [p] else [])
  }

  /** The posts found through tag links are exactly the public posts some
      link points at. */
  lemma {:induction false} TaggedPublicSpec(postTags: Table<PostTag>, posts: Table<Post>, links: seq<nat>)
    requires forall k :: k in links ==> k in postTags.rows
    ensures forall p :: p in TaggedPublic(postTags, posts, links) <==>
              p in posts.rows && posts.rows[p].status == PUBLIC &&
              exists k :: k in links && postTags.rows[k].postId == p
    decreases |links|
  {
    if links != [] {
      var init, last := links[..|links| - 1], links[|links| - 1];
      TaggedPublicSpec(postTags, posts, init);
      assert links == init + [last];
      forall p | p in posts.rows && posts.rows[p].status == PUBLIC && (exists k :: k in links && postTags.rows[k].postId == p)
        ensures p in TaggedPublic(postTags, posts, links)
      {
        var k :| k in links && postTags.rows[k].postId == p;
        if k != last {
          assert k in init;
        }
      }
      forall p | p in TaggedPublic(postTags, posts, links)
        ensures exists k :: k in links && postTags.rows[k].postId == p
      {
        if p in TaggedPublic(postTags, posts, init) {
          var k :| k in init && postTags.rows[k].postId == p;
          assert k in links;
        } else {
          assert last in links;
        }
      }
    }
  }

  /** The ids `index` lists: without a tag query, every public post, newest
      first; with one, the public posts linked to the first tag the query
      matches (the `LIKE` test is the `query` predicate), in link order;
      nothing when no tag matches. */
  function FeedIds(posts: Table<Post>, postTags: Table<PostTag>, tags: Table<Tag>, query: Option<Tag -> bool>): (ids: seq<nat>)
    requires posts.Valid() && postTags.Valid() && tags.Valid()
    ensures forall k :: k in ids ==> k in posts.rows && posts.rows[k].status == PUBLIC
  {
    match query
    case None =>
      var asc := posts.Where(IsPublic());
      var r := Reverse(asc);
      assert forall k :: k in r ==> k in asc by {
        forall k | k in r ensures k in asc {
          var i :| 0 <= i < |r| && r[i] == k;
          assert asc[|asc| - 1 - i] == k;
        }
      }
      r
    case Some(like) =>
      match tags.First(like)
      case None => []
      case Some(t) =>
        var links := postTags.Where(LinksTo(t));
        TaggedPublicSpec(postTags, posts, links);
        TaggedPublic(postTags, posts, links)
  }

  /** Without a query the feed is every public post, each once, newest first. */
  lemma FeedWithoutQuery(posts: Table<Post>, postTags: Table<PostTag>, tags: Table<Tag>)
    requires posts.Valid() && postTags.Valid() && tags.Valid()
    ensures var ids := FeedIds(posts, postTags, tags, None);
            (forall k :: k in ids <==> k in posts.rows && posts.rows[k].status == PUBLIC) &&
            forall i, j :: 0 <= i < j < |ids| ==> ids[i] > ids[j]
  {
    var asc := posts.Where(IsPublic());
    var ids := FeedIds(posts, postTags, tags, None);
    forall k | k in posts.rows && posts.rows[k].status == PUBLIC ensures k in ids {
      assert IsPublic()(posts.rows[k]);
      var i :| 0 <= i < |asc| && asc[i] == k;
      assert ids[|asc| - 1 - i] == k;
    }
  }

  /** With a query the feed is the public posts linked to the first
      matching tag, and nothing when no tag matches. */
  lemma FeedWithQuery(posts: Table<Post>, postTags: Table<PostTag>, tags: Table<Tag>, like: Tag -> bool)
    requires posts.Valid() && postTags.Valid() && tags.Valid()
    ensures var ids := FeedIds(posts, postTags, tags, Some(like));
            match tags.First(like)
            case None => ids == []
            case Some(t) =>
              forall p :: p in ids <==>
                (p in posts.rows && posts.rows[p].status == PUBLIC &&
                 exists k :: k in postTags.rows && postTags.rows[k] == PostTag(p, t))
  {
    match tags.First(like)
    case None =>
    case Some(t) =>
      var links := postTags.Where(LinksTo(t));
      TaggedPublicSpec(postTags, posts, links);
      forall p ensures (exists k :: k in links && postTags.rows[k].postId == p) <==>
                       (exists k :: k in postTags.rows && postTags.rows[k] == PostTag(p, t))
      {
        if exists k :: k in postTags.rows && postTags.rows[k] == PostTag(p, t) {
          var k :| k in postTags.rows && postTags.rows[k] == PostTag(p, t);
          assert LinksTo(t)(postTags.rows[k]);
        }
        if exists k :: k in links && postTags.rows[k].postId == p {
          var k :| k in links && postTags.rows[k].postId == p;
          assert LinksTo(t)(postTags.rows[k]);
          assert postTags.rows[k] == PostTag(p, t);
        }
      }
  }

  /** A feed entry: the post and its author's public fields. */
  datatype FeedEntry = FeedEntry(postId: nat, userId: nat, imgUrl: string, isSaved: bool,
                                 firstName: string, lastName: string, fullName: string, userPfImgUrl: string)

  function EntryFor(posts: Table<Post>, users: Table<User>, saved: Table<SavedPost>, actor: nat, k: nat): FeedEntry
    requires saved.Valid() && k in posts.rows && posts.rows[k].userId in users.rows
  {
    var p := posts.rows[k];
    var u := users.rows[p.userId];
    FeedEntry(k, p.userId, p.imgUrl, IsSaved(saved, actor, k), u.firstName, u.lastName,
              u.firstName + " " + u.lastName, u.pfImgUrl)
  }

  /** The `foreach` of `index`: each author is read without a null check, so
      a listed post whose author is gone turns the feed into an error. */
  method FeedEntries(posts: Table<Post>, users: Table<User>, saved: Table<SavedPost>, actor: nat, ids: seq<nat>)
    returns (ok: bool, entries: seq<FeedEntry>)
    requires saved.Valid() && forall k :: k in ids ==> k in posts.rows
    ensures ok <==> forall k :: k in ids ==> posts.rows[k].userId in users.rows
    ensures ok ==> |entries| == |ids| &&
                   forall i :: 0 <= i < |ids| ==> entries[i] == EntryFor(posts, users, saved, actor, ids[i])
  {
    entries := [];
    for i := 0 to |ids|
      invariant |entries| == i
      invariant forall k :: k in ids[..i] ==> posts.rows[k].userId in users.rows
      invariant forall j :: 0 <= j < i ==> entries[j] == EntryFor(posts, users, saved, actor, ids[j])
    {
      if posts.rows[ids[i]].userId !in users.rows {
        assert ids[i] in ids;
        return false, [];
      }
      assert ids[..i + 1] == ids[..i] + [ids[i]];
      entries := entries + [EntryFor(posts, users, saved, actor, ids[i])];
    }
    assert ids[..|ids|] == ids;
    ok := true;
  }

  /** `index`: the feed, every entry a public post. */
  method Index(db: Database, actor: nat, query: Option<Tag -> bool>) returns (out: Outcome, entries: seq<FeedEntry>)
    requires db.posts.Valid() && db.postTags.Valid() && db.tags.Valid() && db.saved.Valid()
    ensures var ids := FeedIds(db.posts, db.postTags, db.tags, query);
            out == if exists k :: k in ids && db.posts.rows[k].userId !in db.users.rows then Crash else Code(200)
    ensures out == Code(200) ==>
              var ids := FeedIds(db.posts, db.postTags, db.tags, query);
              |entries| == |ids| &&
              forall i :: 0 <= i < |ids| ==> entries[i] == EntryFor(db.posts, db.users, db.saved, actor, ids[i])
    ensures out == Code(200) ==> forall i :: 0 <= i < |entries| ==>
              entries[i].postId in db.posts.rows && db.posts.rows[entries[i].postId].status == PUBLIC
  {
    var ids := FeedIds(db.posts, db.postTags, db.tags, query);
    var ok;
    ok, entries := FeedEntries(db.posts, db.users, db.saved, actor, ids);
    if !ok {
      return Crash, [];
    }
    forall i | 0 <= i < |entries|
      ensures entries[i].postId in db.posts.rows && db.posts.rows[entries[i].postId].status == PUBLIC
    {
      assert ids[i] in ids;
    }
    out := Code(200);
  }

  /** Two posts share a tag when some tag is linked to both. */
  ghost predicate SharesTag(postTags: Table<PostTag>, a: nat, b: nat)
  {
    exists i, j :: i in postTags.rows && j in postTags.rows && postTags.rows[i].postId == a &&
                   postTags.rows[j].postId == b && postTags.rows[i].tagId == postTags.rows[j].tagId
  }

  /** `related`'s query: the tag ids of the source post, the posts linked to
      any of them, the rows fetched by `whereIn(...) orWhere(user_id)->where(id
      != source)` (where SQL binds the `!=` to the author test only), and the
      filter that drops the source post afterwards. */
  function RelatedIds(posts: Table<Post>, postTags: Table<PostTag>, id: nat): (r: set<nat>)
    requires id in posts.rows
    ensures forall k :: k in r <==>
              (k in posts.rows && k != id &&
               (SharesTag(postTags, id, k) || posts.rows[k].userId == posts.rows[id].userId))
  {
    var tagIds := set i | i in postTags.rows && postTags.rows[i].postId == id :: postTags.rows[i].tagId;
    var linked := set j | j in postTags.rows && postTags.rows[j].tagId in tagIds :: postTags.rows[j].postId;
    var fetched := set k | k in posts.rows && (k in linked || (posts.rows[k].userId == posts.rows[id].userId && k != id));
    var r := set k | k in fetched && k != id;
    assert forall k :: k in linked <==> SharesTag(postTags, id, k) by {
      forall k ensures k in linked <==> SharesTag(postTags, id, k) {
        if k in linked {
          var j :| j in postTags.rows && postTags.rows[j].tagId in tagIds && postTags.rows[j].postId == k;
          var i :| i in postTags.rows && postTags.rows[i].postId == id && postTags.rows[i].tagId == postTags.rows[j].tagId;
        }
        if SharesTag(postTags, id, k) {
          var i, j :| i in postTags.rows && j in postTags.rows && postTags.rows[i].postId == id &&
                      postTags.rows[j].postId == k && postTags.rows[i].tagId == postTags.rows[j].tagId;
          assert postTags.rows[i].tagId in tagIds;
        }
      }
    }
    r
  }

  /** `related`: 404; a private source post is refused (401) to everyone but
      its author, global admins included; otherwise the related set, where a
      related post whose author is gone turns the answer into an error.  The
      order is random, so the result is a set. */
  method Related(db: Database, actor: nat, id: nat) returns (out: Outcome, related: set<nat>)
    ensures out == if id !in db.posts.rows then Code(404)
                   else if db.posts.rows[id].status == PRIVATE && db.posts.rows[id].userId != actor then Code(401)
                   else if exists k :: k in RelatedIds(db.posts, db.postTags, id) && db.posts.rows[k].userId !in db.users.rows then Crash
                   else Code(200)
    ensures out == Code(200) ==> related == RelatedIds(db.posts, db.postTags, id)
    ensures out != Code(200) ==> related == {}
  {
    if id !in db.posts.rows {
      return Code(404), {};
    }
    var p := db.posts.rows[id];
    if p.status == PRIVATE && p.userId != actor {
      return Code(401), {};
    }
    var posts := db.posts;
    related := RelatedIds(posts, db.postTags, id);
    if exists k :: k in related && posts.rows[k].userId !in db.users.rows {
      return Crash, {};
    }
    out := Code(200);
  }

  /** `destroy`'s authorisation: a global admin, the author, or an "admin"
      member of the post's group. */
  predicate MayDelete(db: Database, actor: nat, p: Post)
    reads db
    requires db.members.Valid() && actor in db.users.rows
  {
    db.users.rows[actor].role == ADMIN || p.userId == actor ||
    (HasGroup(p) && Find(db.members, Member(p.groupId.value, actor, ADMIN)).Some?)
  }

  /** `destroy`: 404; for a non-admin, a post in a group is checked against
      that group's admin rows, and the group is read without a null check, so
      a post whose group is gone ends in an error even for its author.  403
      unless `MayDelete`; success removes the post and its tag links. */
  method Destroy(db: Database, actor: nat, id: nat) returns (out: Outcome)
    requires db.Valid() && actor in db.users.rows
    modifies db`posts, db`postTags
    ensures db.Valid()
    ensures out == if id !in old(db.posts.rows) then Code(404)
                   else if db.users.rows[actor].role != ADMIN && HasGroup(old(db.posts.rows[id])) &&
                           old(db.posts.rows[id]).groupId.value !in db.groups.rows then Crash
                   else if !MayDelete(db, actor, old(db.posts.rows[id])) then Code(403)
                   else Code(200)
    ensures out == Code(200) ==> db.posts == old(db.posts).Delete(id) &&
                                 db.postTags == old(db.postTags).DeleteWhere(LinksOf(id))
    ensures out == Code(200) ==> id !in db.posts.rows &&
                                 forall k :: k in db.postTags.rows ==> db.postTags.rows[k].postId != id
    ensures out != Code(200) ==> db.posts == old(db.posts) && db.postTags == old(db.postTags)
  {
    if id !in db.posts.rows {
      return Code(404);
    }
    var p := db.posts.rows[id];
    if db.users.rows[actor].role != ADMIN && HasGroup(p) && p.groupId.value !in db.groups.rows {
      return Crash;
    }
    if !MayDelete(db, actor, p) {
      return Code(403);
    }
    db.SetPosts(db.posts.Delete(id));
    db.SetPostTags(db.postTags.DeleteWhere(LinksOf(id)));
    out := Code(200);
  }
}
