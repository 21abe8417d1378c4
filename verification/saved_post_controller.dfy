/** Saving a post into folders, and listing one folder's saved posts. */
module SavedPostController {
  import opened Tables
  import opened Schema

  /** A folder id the actor may save into: it names an existing folder the
      actor owns. */
  predicate Usable(folders: Table<Folder>, actor: nat, f: int)
  {
    f >= 0 && f in folders.rows && folders.rows[f as nat].userId == actor
  }

  predicate AllUsable(folders: Table<Folder>, actor: nat, fids: seq<int>)
  {
    forall i :: 0 <= i < |fids| ==> Usable(folders, actor, fids[i])
  }

  /** The `foreach` of `store`, on table values: the listed folders are taken
      in order; a missing folder stops with 400 and another user's folder
      with 403, keeping the flips already made; each usable folder flips the
      (actor, post, folder) row. */
  function SaveLoop(saved: Table<SavedPost>, folders: Table<Folder>, actor: nat, postId: nat, fids: seq<int>)
    : (r: (Table<SavedPost>, Outcome))
    requires saved.Valid()
    ensures r.0.Valid()
    ensures r.1 == Code(200) || r.1 == Code(400) || r.1 == Code(403)
    decreases |fids|
  {
    if fids == [] then (saved, Code(200))
    else if fids[0] < 0 || fids[0] !in folders.rows then (saved, Code(400))
    else if folders.rows[fids[0] as nat].userId != actor then (saved, Code(403))
    else SaveLoop(Flip(saved, SavedPost(actor, postId, fids[0])), folders, actor, postId, fids[1..])
  }

  /** The loop itself, proved to compute `SaveLoop`. */
  method FlipFolders(saved: Table<SavedPost>, folders: Table<Folder>, actor: nat, postId: nat, fids: seq<int>)
    returns (t: Table<SavedPost>, out: Outcome)
    requires saved.Valid()
    ensures (t, out) == SaveLoop(saved, folders, actor, postId, fids)
  {
    t := saved;
    var i := 0;
    while i < |fids|
      invariant 0 <= i <= |fids| && t.Valid()
      invariant SaveLoop(t, folders, actor, postId, fids[i..]) == SaveLoop(saved, folders, actor, postId, fids)
    {
      var f := fids[i];
      if f < 0 || f !in folders.rows {
        return t, Code(400);
      }
      if folders.rows[f as nat].userId != actor {
        return t, Code(403);
      }
      assert fids[i..][1..] == fids[i + 1..];
      t := Flip(t, SavedPost(actor, postId, f));
      i := i + 1;
    }
    out := Code(200);
  }

  /** `s` with the membership of `r` inverted. */
  function Toggle(s: set<SavedPost>, r: SavedPost): (u: set<SavedPost>)
    ensures r in u <==> r !in s
    ensures forall x :: x != r ==> (x in u <==> x in s)
  {
    if r in s then s - {r} else s + {r}
  }

  /** The saved rows, as a set, after toggling the actor's row for `postId`
      once per listed folder. */
  ghost function Toggled(s: set<SavedPost>, actor: nat, postId: nat, fids: seq<int>): set<SavedPost>
    requires forall i :: 0 <= i < |fids| ==> fids[i] >= 0
    decreases |fids|
  {
    if fids == [] then s
    else Toggled(Toggle(s, SavedPost(actor, postId, fids[0])), actor, postId, fids[1..])
  }

  /** When every listed folder is usable the loop answers 200, keeps the
      table duplicate-free, and its rows are exactly the toggled set. */
  lemma {:induction false} SaveLoopAllUsable(saved: Table<SavedPost>, folders: Table<Folder>, actor: nat,
                                             postId: nat, fids: seq<int>)
    requires saved.Valid() && NoDup(saved) && AllUsable(folders, actor, fids)
    ensures SaveLoop(saved, folders, actor, postId, fids).1 == Code(200)
    ensures NoDup(SaveLoop(saved, folders, actor, postId, fids).0)
    ensures SaveLoop(saved, folders, actor, postId, fids).0.Values() == Toggled(saved.Values(), actor, postId, fids)
    decreases |fids|
  {
    if fids != [] {
      assert Usable(folders, actor, fids[0]);
      var r := SavedPost(actor, postId, fids[0]);
      FlipSpec(saved, r);
      assert AllUsable(folders, actor, fids[1..]) by {
        forall i | 0 <= i < |fids[1..]| ensures Usable(folders, actor, fids[1..][i]) {
          assert fids[1..][i] == fids[i + 1];
        }
      }
      SaveLoopAllUsable(Flip(saved, r), folders, actor, postId, fids[1..]);
    }
  }

  /** Whatever the list, the loop keeps the table duplicate-free. */
  lemma {:induction false} SaveLoopNoDup(saved: Table<SavedPost>, folders: Table<Folder>, actor: nat,
                                         postId: nat, fids: seq<int>)
    requires saved.Valid() && NoDup(saved)
    ensures NoDup(SaveLoop(saved, folders, actor, postId, fids).0)
    decreases |fids|
  {
    if fids != [] && Usable(folders, actor, fids[0]) {
      FlipSpec(saved, SavedPost(actor, postId, fids[0]));
      SaveLoopNoDup(Flip(saved, SavedPost(actor, postId, fids[0])), folders, actor, postId, fids[1..]);
    }
  }

  /** A loop stopped by the first unusable folder, at position `i`, leaves
      the table exactly as the usable prefix left it and answers 400 for a
      missing folder, 403 for another user's folder. */
  lemma {:induction false} SaveLoopStops(saved: Table<SavedPost>, folders: Table<Folder>, actor: nat,
                                         postId: nat, fids: seq<int>, i: nat)
    requires saved.Valid()
    requires i < |fids| && AllUsable(folders, actor, fids[..i]) && !Usable(folders, actor, fids[i])
    ensures SaveLoop(saved, folders, actor, postId, fids)
         == (SaveLoop(saved, folders, actor, postId, fids[..i]).0,
             if fids[i] < 0 || fids[i] !in folders.rows then Code(400) else Code(403))
    decreases i
  {
    if i > 0 {
      assert Usable(folders, actor, fids[..i][0]);
      var rest := fids[1..][..i - 1];
      assert fids[..i][1..] == rest;
      assert AllUsable(folders, actor, rest) by {
        forall j | 0 <= j < |rest| ensures Usable(folders, actor, rest[j]) {
          assert rest[j] == fids[..i][j + 1];
        }
      }
      SaveLoopStops(Flip(saved, SavedPost(actor, postId, fids[0])), folders, actor, postId, fids[1..], i - 1);
    }
  }

  /** Rows of other users, other posts, or folders not in the list keep
      their membership. */
  lemma {:induction false} ToggledElsewhere(s: set<SavedPost>, actor: nat, postId: nat, fids: seq<int>, x: SavedPost)
    requires forall i :: 0 <= i < |fids| ==> fids[i] >= 0
    requires x.userId != actor || x.postId != postId || x.folderId !in fids
    ensures x in Toggled(s, actor, postId, fids) <==> x in s
    decreases |fids|
  {
    if fids != [] {
      assert x != SavedPost(actor, postId, fids[0]);
      assert fids == [fids[0]] + fids[1..];
      ToggledElsewhere(Toggle(s, SavedPost(actor, postId, fids[0])), actor, postId, fids[1..], x);
    }
  }

  /** The actor's row for folder `f` ends present iff it was present and
      `f` is listed an even number of times, or absent and listed an odd
      number of times. */
  lemma {:induction false} ToggledParity(s: set<SavedPost>, actor: nat, postId: nat, fids: seq<int>, f: nat)
    requires forall i :: 0 <= i < |fids| ==> fids[i] >= 0
    ensures SavedPost(actor, postId, f) in Toggled(s, actor, postId, fids)
        <==> (SavedPost(actor, postId, f) in s) != (multiset(fids)[f] % 2 == 1)
    decreases |fids|
  {
    if fids != [] {
      assert fids == [fids[0]] + fids[1..];
      assert multiset(fids) == multiset{fids[0]} + multiset(fids[1..]);
      ToggledParity(Toggle(s, SavedPost(actor, postId, fids[0])), actor, postId, fids[1..], f);
    }
  }

  /** A folder listed twice ends with its row as it was. */
  lemma ListedTwiceUnchanged(s: set<SavedPost>, actor: nat, postId: nat, fids: seq<int>, f: nat)
    requires forall i :: 0 <= i < |fids| ==> fids[i] >= 0
    requires multiset(fids)[f] == 2
    ensures SavedPost(actor, postId, f) in Toggled(s, actor, postId, fids) <==> SavedPost(actor, postId, f) in s
  {
    ToggledParity(s, actor, postId, fids, f);
  }

  /** Toggling with the same list twice gives back the original set. */
  lemma ToggledTwice(s: set<SavedPost>, actor: nat, postId: nat, fids: seq<int>)
    requires forall i :: 0 <= i < |fids| ==> fids[i] >= 0
    ensures Toggled(Toggled(s, actor, postId, fids), actor, postId, fids) == s
  {
    var once := Toggled(s, actor, postId, fids);
    forall x ensures x in Toggled(once, actor, postId, fids) <==> x in s {
      if x.userId == actor && x.postId == postId && x.folderId in fids {
        ToggledParity(s, actor, postId, fids, x.folderId);
        ToggledParity(once, actor, postId, fids, x.folderId);
      } else {
        ToggledElsewhere(s, actor, postId, fids, x);
        ToggledElsewhere(once, actor, postId, fids, x);
      }
    }
  }

  /** Running the loop twice with the same list of usable folders restores
      the saved rows. */
  lemma SaveLoopTwiceRestores(saved: Table<SavedPost>, folders: Table<Folder>, actor: nat,
                              postId: nat, fids: seq<int>)
    requires saved.Valid() && NoDup(saved) && AllUsable(folders, actor, fids)
    ensures SaveLoop(SaveLoop(saved, folders, actor, postId, fids).0, folders, actor, postId, fids).0.Values()
         == saved.Values()
  {
    var once := SaveLoop(saved, folders, actor, postId, fids).0;
    SaveLoopAllUsable(saved, folders, actor, postId, fids);
    SaveLoopAllUsable(once, folders, actor, postId, fids);
    ToggledTwice(saved.Values(), actor, postId, fids);
  }

  /** `store`: both inputs are required (400; an empty folder list counts
      as missing); the post must exist (404) before any row changes; then
      the folder loop decides the answer and the new table. */
  method Store(db: Database, actor: nat, postId: Option<int>, folderIds: Option<seq<int>>) returns (out: Outcome)
    requires db.Valid() && NoDup(db.saved)
    modifies db`saved
    ensures db.Valid() && NoDup(db.saved)
    ensures out == if postId.None? || folderIds.None? || folderIds.value == [] then Code(400)
                   else if postId.value < 0 || postId.value !in db.posts.rows then Code(404)
                   else SaveLoop(old(db.saved), db.folders, actor, postId.value, folderIds.value).1
    ensures db.saved == if postId.None? || folderIds.None? || folderIds.value == [] ||
                           postId.value < 0 || postId.value !in db.posts.rows then old(db.saved)
                        else SaveLoop(old(db.saved), db.folders, actor, postId.value, folderIds.value).0
  {
    if postId.None? || folderIds.None? || folderIds.value == [] {
      return Code(400);
    }
    if postId.value < 0 || postId.value !in db.posts.rows {
      return Code(404);
    }
    var t;
    t, out := FlipFolders(db.saved, db.folders, actor, postId.value, folderIds.value);
    SaveLoopNoDup(db.saved, db.folders, actor, postId.value, folderIds.value);
    db.SetSaved(t);
  }

  /** One listed saved post: the post's id, image and author, and the
      author's display name and picture.  `isSaved` is always true. */
  datatype SavedItem = SavedItem(postId: nat, imgUrl: string, userId: nat, isSaved: bool,
                                 userName: string, userPfImgUrl: string)

  /** Whether the saved row `k` survives the listing: its post exists and
      so does the post's author. */
  predicate Listed(saved: Table<SavedPost>, posts: Table<Post>, users: Table<User>, k: nat)
    requires k in saved.rows
  {
    saved.rows[k].postId in posts.rows && posts.rows[saved.rows[k].postId].userId in users.rows
  }

  function Item(postId: nat, post: Post, author: User): SavedItem
  {
    SavedItem(postId, post.imgUrl, post.userId, true, author.firstName + " " + author.lastName, author.pfImgUrl)
  }

  /** The listing of the saved rows `ids`, in order, skipping rows whose post
      or whose post's author is gone. */
  function SavedList(saved: Table<SavedPost>, posts: Table<Post>, users: Table<User>, ids: seq<nat>)
    : seq<SavedItem>
    requires forall k :: k in ids ==> k in saved.rows
    decreases |ids|
  {
    if ids == [] then []
    else
      var k := ids[|ids| - 1];
      SavedList(saved, posts, users, ids[..|ids| - 1]) +
      if Listed(saved, posts, users, k)
      then [Item(saved.rows[k].postId, posts.rows[saved.rows[k].postId],
                 users.rows[posts.rows[saved.rows[k].postId].userId])]
      else []
  }

  /** Every listed item is marked saved and shows an existing post, as it is
      stored, saved by one of the rows `ids`; every surviving row is listed. */
  lemma {:induction false} SavedListSpec(saved: Table<SavedPost>, posts: Table<Post>, users: Table<User>,
                                         ids: seq<nat>)
    requires forall k :: k in ids ==> k in saved.rows
    ensures forall it :: it in SavedList(saved, posts, users, ids) ==>
              it.isSaved && it.postId in posts.rows && it.userId == posts.rows[it.postId].userId &&
              it.imgUrl == posts.rows[it.postId].imgUrl &&
              exists k :: k in ids && saved.rows[k].postId == it.postId
    ensures forall k :: k in ids && Listed(saved, posts, users, k) ==>
              exists it :: it in SavedList(saved, posts, users, ids) && it.postId == saved.rows[k].postId
    decreases |ids|
  {
    if ids != [] {
      var init, k := ids[..|ids| - 1], ids[|ids| - 1];
      assert ids == init + [k];
      SavedListSpec(saved, posts, users, init);
      if Listed(saved, posts, users, k) {
        var it := Item(saved.rows[k].postId, posts.rows[saved.rows[k].postId],
                       users.rows[posts.rows[saved.rows[k].postId].userId]);
        assert it in SavedList(saved, posts, users, ids);
      }
    }
  }

  /** The `foreach` of `getSavedPosts`, proved to compute `SavedList`. */
  method Items(saved: Table<SavedPost>, posts: Table<Post>, users: Table<User>, ids: seq<nat>)
    returns (items: seq<SavedItem>)
    requires forall k :: k in ids ==> k in saved.rows
    ensures items == SavedList(saved, posts, users, ids)
  {
    items := [];
    var i := 0;
    while i < |ids|
      invariant 0 <= i <= |ids|
      invariant items == SavedList(saved, posts, users, ids[..i])
    {
      assert ids[..i + 1][..i] == ids[..i];
      var row := saved.rows[ids[i]];
      if row.postId in posts.rows && posts.rows[row.postId].userId in users.rows {
        var post := posts.rows[row.postId];
        items := items + [Item(row.postId, post, users.rows[post.userId])];
      }
      i := i + 1;
    }
    assert ids[..i] == ids;
  }

  /** Saved rows of `actor` in folder `folderId`. */
  function InFolder(actor: nat, folderId: nat): SavedPost -> bool
  {
    (s: SavedPost) => s.userId == actor && s.folderId == folderId
  }

  /** `getSavedPosts`: the folder is looked up by (actor, id), so a folder of
      another user is "not found" (400) and the later ownership test can
      never fail; then the actor's rows of the folder are listed. */
  method GetSavedPosts(db: Database, actor: nat, id: nat) returns (out: Outcome, items: seq<SavedItem>)
    requires db.saved.Valid()
    ensures out == if id in db.folders.rows && db.folders.rows[id].userId == actor then Code(200) else Code(400)
    ensures out == Code(200) ==> items == SavedList(db.saved, db.posts, db.users, db.saved.Where(InFolder(actor, id)))
    ensures out != Code(200) ==> items == []
  {
    if !(id in db.folders.rows && db.folders.rows[id].userId == actor) {
      return Code(400), [];
    }
    var saved := db.saved;
    items := Items(saved, db.posts, db.users, saved.Where(InFolder(actor, id)));
    out := Code(200);
  }
}
