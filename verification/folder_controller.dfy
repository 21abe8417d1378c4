/** The actor's folders: the overview with a three-post preview, the
    per-post "saved in" marks, and create, show, update and delete. */
module FolderController {
  import opened Tables
  import opened Schema
  import SavedPostController

  /** Folders owned by `actor`. */
  function FolderOf(actor: nat): Folder -> bool
  {
    (f: Folder) => f.userId == actor
  }

  /** One post of a folder preview. */
  datatype PreviewItem = PreviewItem(postId: nat, imgUrl: string)

  /** One folder of the overview. */
  datatype FolderEntry = FolderEntry(folderId: nat, title: string, savedPosts: seq<PreviewItem>)

  /** The saved rows a preview starts from: the actor's first three rows of
      the folder, in table order. */
  function PreviewIds(saved: Table<SavedPost>, actor: nat, folderId: nat): (ids: seq<nat>)
    requires saved.Valid()
    ensures forall k :: k in ids ==> k in saved.rows
  {
    var all := saved.Where(SavedPostController.InFolder(actor, folderId));
    Limit(all, 3)
  }

  /** The preview of the rows `ids`, in order, skipping rows whose post no
      longer exists. */
  function PreviewItems(saved: Table<SavedPost>, posts: Table<Post>, ids: seq<nat>): seq<PreviewItem>
    requires forall k :: k in ids ==> k in saved.rows
    decreases |ids|
  {
    if ids == [] then []
    else
      var p := saved.rows[ids[|ids| - 1]].postId;
      PreviewItems(saved, posts, ids[..|ids| - 1]) +
      if p in posts.rows then [PreviewItem(p, posts.rows[p].imgUrl)] else []
  }

  /** A preview holds at most as many items as rows, each showing an
      existing post saved by one of the rows, and every row whose post
      exists shows up. */
  lemma {:induction false} PreviewItemsSpec(saved: Table<SavedPost>, posts: Table<Post>, ids: seq<nat>)
    requires forall k :: k in ids ==> k in saved.rows
    ensures |PreviewItems(saved, posts, ids)| <= |ids|
    ensures forall it :: it in PreviewItems(saved, posts, ids) ==>
              it.postId in posts.rows && it.imgUrl == posts.rows[it.postId].imgUrl &&
              exists k :: k in ids && saved.rows[k].postId == it.postId
    ensures forall k :: k in ids && saved.rows[k].postId in posts.rows ==>
              PreviewItem(saved.rows[k].postId, posts.rows[saved.rows[k].postId].imgUrl)
                in PreviewItems(saved, posts, ids)
    decreases |ids|
  {
    if ids != [] {
      var init := ids[..|ids| - 1];
      assert ids == init + [ids[|ids| - 1]];
      PreviewItemsSpec(saved, posts, init);
    }
  }

  /** A folder preview shows at most three posts, all existing, each saved
      in that folder by the actor. */
  lemma PreviewAtMostThree(saved: Table<SavedPost>, posts: Table<Post>, actor: nat, folderId: nat)
    requires saved.Valid()
    ensures |PreviewItems(saved, posts, PreviewIds(saved, actor, folderId))| <= 3
    ensures forall it :: it in PreviewItems(saved, posts, PreviewIds(saved, actor, folderId)) ==>
              it.postId in posts.rows &&
              SavedPost(actor, it.postId, folderId) in saved.Values()
  {
    var ids := PreviewIds(saved, actor, folderId);
    PreviewItemsSpec(saved, posts, ids);
    forall it | it in PreviewItems(saved, posts, ids)
      ensures SavedPost(actor, it.postId, folderId) in saved.Values()
    {
      var k :| k in ids && saved.rows[k].postId == it.postId;
      assert k in saved.Where(SavedPostController.InFolder(actor, folderId));
      assert saved.rows[k] == SavedPost(actor, it.postId, folderId);
    }
  }

  /** The inner `foreach` of `index`, proved to compute `PreviewItems`. */
  method Preview(saved: Table<SavedPost>, posts: Table<Post>, ids: seq<nat>) returns (items: seq<PreviewItem>)
    requires forall k :: k in ids ==> k in saved.rows
    ensures items == PreviewItems(saved, posts, ids)
  {
    items := [];
    var i := 0;
    while i < |ids|
      invariant 0 <= i <= |ids|
      invariant items == PreviewItems(saved, posts, ids[..i])
    {
      assert ids[..i + 1][..i] == ids[..i];
      var p := saved.rows[ids[i]].postId;
      if p in posts.rows {
        items := items + [PreviewItem(p, posts.rows[p].imgUrl)];
      }
      i := i + 1;
    }
    assert ids[..i] == ids;
  }

  /** The overview entry of folder `id`: its id, its title and the preview
      of its first three saved rows. */
  function EntryOf(folders: Table<Folder>, saved: Table<SavedPost>, posts: Table<Post>, actor: nat, id: nat): FolderEntry
    requires saved.Valid() && id in folders.rows
  {
    FolderEntry(id, folders.rows[id].title, PreviewItems(saved, posts, PreviewIds(saved, actor, id)))
  }

  /** The overview entries of the folders `ids`, in order. */
  function EntriesOf(folders: Table<Folder>, saved: Table<SavedPost>, posts: Table<Post>, actor: nat, ids: seq<nat>)
    : seq<FolderEntry>
    requires saved.Valid() && forall k :: k in ids ==> k in folders.rows
    decreases |ids|
  {
    if ids == [] then []
    else EntriesOf(folders, saved, posts, actor, ids[..|ids| - 1]) + [EntryOf(folders, saved, posts, actor, ids[|ids| - 1])]
  }

  /** `EntriesOf` holds one entry per folder id, at the same position. */
  lemma {:induction false} EntriesOfIndex(folders: Table<Folder>, saved: Table<SavedPost>, posts: Table<Post>,
                                          actor: nat, ids: seq<nat>)
    requires saved.Valid() && forall k :: k in ids ==> k in folders.rows
    ensures |EntriesOf(folders, saved, posts, actor, ids)| == |ids|
    ensures forall i :: 0 <= i < |ids| ==>
              EntriesOf(folders, saved, posts, actor, ids)[i] == EntryOf(folders, saved, posts, actor, ids[i])
    decreases |ids|
  {
    if ids != [] {
      EntriesOfIndex(folders, saved, posts, actor, ids[..|ids| - 1]);
    }
  }

  /** The outer `foreach` of `index`, proved to compute `EntriesOf`. */
  method Entries(folders: Table<Folder>, saved: Table<SavedPost>, posts: Table<Post>, actor: nat, ids: seq<nat>)
    returns (entries: seq<FolderEntry>)
    requires saved.Valid()
    requires forall k :: k in ids ==> k in folders.rows
    ensures entries == EntriesOf(folders, saved, posts, actor, ids)
  {
    entries := [];
    var i := 0;
    while i < |ids|
      invariant 0 <= i <= |ids|
      invariant entries == EntriesOf(folders, saved, posts, actor, ids[..i])
    {
      assert ids[..i + 1][..i] == ids[..i];
      assert ids[i] in ids;
      var items := Preview(saved, posts, PreviewIds(saved, actor, ids[i]));
      entries := entries + [FolderEntry(ids[i], folders.rows[ids[i]].title, items)];
      i := i + 1;
    }
    assert ids[..i] == ids;
  }

  /** `index`: the actor's folders in table order, each with its preview. */
  method Index(db: Database, actor: nat) returns (out: Outcome, entries: seq<FolderEntry>)
    requires db.folders.Valid() && db.saved.Valid()
    ensures out == Code(200)
    ensures |entries| == |db.folders.Where(FolderOf(actor))|
    ensures forall i :: 0 <= i < |entries| ==>
              var id := db.folders.Where(FolderOf(actor))[i];
              db.folders.rows[id].userId == actor && entries[i] == EntryOf(db.folders, db.saved, db.posts, actor, id)
  {
    var folders, saved := db.folders, db.saved;
    var ids := folders.Where(FolderOf(actor));
    entries := Entries(folders, saved, db.posts, actor, ids);
    EntriesOfIndex(folders, saved, db.posts, actor, ids);
    forall i | 0 <= i < |ids| ensures folders.rows[ids[i]].userId == actor {
      assert ids[i] in ids;
      assert FolderOf(actor)(folders.rows[ids[i]]);
    }
    out := Code(200);
  }

  /** One folder in the answer of `getFoldersByPostId`. */
  datatype FolderMark = FolderMark(folderId: nat, title: string, isSaved: bool)

  /** The mark of one of the actor's folders: saved exactly when the actor's
      saved row of the post in that folder exists. */
  ghost predicate MarkFor(folders: Table<Folder>, saved: Table<SavedPost>, actor: nat, postId: nat, id: nat, m: FolderMark)
  {
    id in folders.rows && m.folderId == id && m.title == folders.rows[id].title &&
    (m.isSaved <==> SavedPost(actor, postId, id) in saved.Values())
  }

  /** One step of the `foreach` of `getFoldersByPostId`: `exists()` on the
      actor's saved row of the post in the folder. */
  method Mark(folders: Table<Folder>, saved: Table<SavedPost>, actor: nat, postId: nat, id: nat) returns (m: FolderMark)
    requires saved.Valid() && id in folders.rows
    ensures MarkFor(folders, saved, actor, postId, id, m)
  {
    m := FolderMark(id, folders.rows[id].title, Find(saved, SavedPost(actor, postId, id)).Some?);
  }

  /** The `foreach` of `getFoldersByPostId`. */
  method Marks(folders: Table<Folder>, saved: Table<SavedPost>, actor: nat, postId: nat, ids: seq<nat>)
    returns (marks: seq<FolderMark>)
    requires saved.Valid()
    requires forall k :: k in ids ==> k in folders.rows
    ensures |marks| == |ids|
    ensures forall i :: 0 <= i < |ids| ==> MarkFor(folders, saved, actor, postId, ids[i], marks[i])
  {
    marks := [];
    var i := 0;
    while i < |ids|
      invariant 0 <= i <= |ids|
      invariant |marks| == i
      invariant forall j :: 0 <= j < i ==> MarkFor(folders, saved, actor, postId, ids[j], marks[j])
    {
      assert ids[i] in ids;
      var m := Mark(folders, saved, actor, postId, ids[i]);
      marks := marks + [m];
      i := i + 1;
    }
  }

  /** `getFoldersByPostId`: 404 for an unknown post; otherwise every folder
      of the actor, in table order, marked saved iff the actor saved the
      post in it. */
  method GetFoldersByPostId(db: Database, actor: nat, postId: nat) returns (out: Outcome, marks: seq<FolderMark>)
    requires db.folders.Valid() && db.saved.Valid()
    ensures out == if postId in db.posts.rows then Code(200) else Code(404)
    ensures out == Code(200) ==>
              |marks| == |db.folders.Where(FolderOf(actor))| &&
              forall i :: 0 <= i < |marks| ==>
                var id := db.folders.Where(FolderOf(actor))[i];
                db.folders.rows[id].userId == actor && MarkFor(db.folders, db.saved, actor, postId, id, marks[i])
    ensures out != Code(200) ==> marks == []
  {
    if postId !in db.posts.rows {
      return Code(404), [];
    }
    var folders, saved := db.folders, db.saved;
    var ids := folders.Where(FolderOf(actor));
    marks := Marks(folders, saved, actor, postId, ids);
    forall i | 0 <= i < |ids| ensures folders.rows[ids[i]].userId == actor {
      assert ids[i] in ids;
      assert FolderOf(actor)(folders.rows[ids[i]]);
    }
    out := Code(200);
  }

  /** The folder validation of `store` and `update`: a title is required, a
      description has at most 255 characters, the status is "public" or
      "private". */
  predicate FolderInputOk(title: string, description: string, status: string)
  {
    title != "" && |description| <= 255 && (status == PUBLIC || status == PRIVATE)
  }

  /** `store`: after validation (400) a folder owned by the actor is added. */
  method Store(db: Database, actor: nat, title: string, description: string, status: string) returns (out: Outcome)
    requires db.Valid()
    modifies db`folders
    ensures db.Valid()
    ensures out == if FolderInputOk(title, description, status) then Code(200) else Code(400)
    ensures out == Code(200) ==> db.folders == old(db.folders).Insert(Folder(actor, title, description, status))
    ensures out != Code(200) ==> db.folders == old(db.folders)
  {
    if !FolderInputOk(title, description, status) {
      return Code(400);
    }
    db.SetFolders(db.folders.Insert(Folder(actor, title, description, status)));
    out := Code(200);
  }

  /** `show`: the folder is looked up by (id, actor), so only its owner sees
      it; anyone else gets 404. */
  method Show(db: Database, actor: nat, id: nat) returns (out: Outcome, folder: Option<Folder>)
    ensures out == Code(200) <==> id in db.folders.rows && db.folders.rows[id].userId == actor
    ensures out != Code(200) ==> out == Code(404) && folder == None
    ensures out == Code(200) ==> folder == Some(db.folders.rows[id]) && folder.value.userId == actor
  {
    if id in db.folders.rows && db.folders.rows[id].userId == actor {
      return Code(200), Some(db.folders.rows[id]);
    }
    return Code(404), None;
  }

  /** `update`: validation (400), then existence (404), then ownership
      (403); only title, description and status change. */
  method Update(db: Database, actor: nat, id: nat, title: string, description: string, status: string)
    returns (out: Outcome)
    requires db.Valid()
    modifies db`folders
    ensures db.Valid()
    ensures out == if !FolderInputOk(title, description, status) then Code(400)
                   else if id !in old(db.folders.rows) then Code(404)
                   else if old(db.folders.rows[id]).userId != actor then Code(403)
                   else Code(200)
    ensures out == Code(200) ==>
      db.folders == old(db.folders).Put(id, old(db.folders.rows[id]).(title := title, description := description,
                                                                        status := status))
    ensures out != Code(200) ==> db.folders == old(db.folders)
  {
    if !FolderInputOk(title, description, status) {
      return Code(400);
    }
    if id !in db.folders.rows {
      return Code(404);
    }
    var folder := db.folders.rows[id];
    if folder.userId != actor {
      return Code(403);
    }
    db.SetFolders(db.folders.Put(id, folder.(title := title, description := description, status := status)));
    out := Code(200);
  }

  /** `destroy`: 404, then ownership (403); the owner's folder goes and so
      do the owner's saved rows of that folder. */
  method Destroy(db: Database, actor: nat, id: nat) returns (out: Outcome)
    requires db.Valid() && NoDup(db.saved)
    modifies db`folders, db`saved
    ensures db.Valid() && NoDup(db.saved)
    ensures out == if id !in old(db.folders.rows) then Code(404)
                   else if old(db.folders.rows[id]).userId != actor then Code(403)
                   else Code(200)
    ensures out == Code(200) ==>
      db.folders == old(db.folders).Delete(id) &&
      db.saved == old(db.saved).DeleteWhere(SavedPostController.InFolder(actor, id))
    ensures out != Code(200) ==> db.folders == old(db.folders) && db.saved == old(db.saved)
  {
    if id !in db.folders.rows {
      return Code(404);
    }
    if db.folders.rows[id].userId != actor {
      return Code(403);
    }
    db.SetFolders(db.folders.Delete(id));
    db.SetSaved(db.saved.DeleteWhere(SavedPostController.InFolder(actor, id)));
    out := Code(200);
  }

  /** After a successful `destroy` the actor has no saved row left in the
      folder, and every other saved row keeps its id and value. */
  lemma DestroyClearsFolder(saved: Table<SavedPost>, actor: nat, id: nat)
    ensures forall k :: k in saved.DeleteWhere(SavedPostController.InFolder(actor, id)).rows ==>
              !(saved.rows[k].userId == actor && saved.rows[k].folderId == id)
    ensures forall k :: k in saved.rows && !(saved.rows[k].userId == actor && saved.rows[k].folderId == id) ==>
              k in saved.DeleteWhere(SavedPostController.InFolder(actor, id)).rows &&
              saved.DeleteWhere(SavedPostController.InFolder(actor, id)).rows[k] == saved.rows[k]
  {
  }
}
