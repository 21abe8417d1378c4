/** Tags: tag names are unique, which `store` and `update` keep by looking
    the name up before writing it. */
module TagController {
  import opened Tables
  import opened Schema

  /** Tags with this name. */
  function Named(name: string): Tag -> bool
  {
    (t: Tag) => t.name == name
  }

  /** The validator: a name is required and at most 255 characters long. */
  predicate NameOk(name: string)
  {
    name != "" && |name| <= 255
  }

  /** `store`: 400 for a bad name or a name already taken; otherwise exactly
      one tag is added. */
  method Store(db: Database, name: string) returns (out: Outcome)
    requires db.Valid() && NoDup(db.tags)
    modifies db`tags
    ensures db.Valid() && NoDup(db.tags)
    ensures out == if !NameOk(name) || Tag(name) in old(db.tags.Values()) then Code(400) else Code(200)
    ensures out == Code(200) ==> db.tags == old(db.tags).Insert(Tag(name)) &&
                                 db.tags.Values() == old(db.tags.Values()) + {Tag(name)}
    ensures out != Code(200) ==> db.tags == old(db.tags)
  {
    if !NameOk(name) {
      return Code(400);
    }
    var existing := db.tags.First(Named(name));
    assert existing.None? <==> Tag(name) !in db.tags.Values() by {
      if Tag(name) in db.tags.Values() {
        var k :| k in db.tags.rows && db.tags.rows[k] == Tag(name);
        assert Named(name)(db.tags.rows[k]);
      }
    }
    if existing.Some? {
      return Code(400);
    }
    InsertFresh(db.tags, Tag(name));
    db.SetTags(db.tags.Insert(Tag(name)));
    out := Code(200);
  }

  /** `update`: 404 for an unknown id, 400 for a bad name, 400 when another
      tag already has the name; renaming a tag to its own name is allowed. */
  method Update(db: Database, id: nat, name: string) returns (out: Outcome)
    requires db.Valid() && NoDup(db.tags)
    modifies db`tags
    ensures db.Valid() && NoDup(db.tags)
    ensures out == if id !in old(db.tags.rows) then Code(404)
                   else if !NameOk(name) then Code(400)
                   else if exists k :: k in old(db.tags.rows) && k != id && old(db.tags.rows[k]) == Tag(name) then Code(400)
                   else Code(200)
    ensures out == Code(200) ==> db.tags == old(db.tags).Put(id, Tag(name))
    ensures out != Code(200) ==> db.tags == old(db.tags)
  {
    if id !in db.tags.rows {
      return Code(404);
    }
    if !NameOk(name) {
      return Code(400);
    }
    var existing := db.tags.First(Named(name));
    if existing.Some? && existing.value != id {
      return Code(400);
    }
    assert forall k :: k in db.tags.rows && k != id ==> !Named(name)(db.tags.rows[k]);
    RenameKeepsUnique(db.tags, id, name);
    db.SetTags(db.tags.Put(id, Tag(name)));
    out := Code(200);
  }

  /** Writing a name no other tag has keeps tag names unique. */
  lemma RenameKeepsUnique(tags: Table<Tag>, id: nat, name: string)
    requires NoDup(tags) && id in tags.rows
    requires forall k :: k in tags.rows && k != id ==> tags.rows[k] != Tag(name)
    ensures NoDup(tags.Put(id, Tag(name)))
  {
  }

  /** `destroy`: `findOrFail` answers 404; otherwise only the tag row goes.
      Links from posts to the tag are left in place. */
  method Destroy(db: Database, id: nat) returns (out: Outcome)
    requires db.Valid() && NoDup(db.tags)
    modifies db`tags
    ensures db.Valid() && NoDup(db.tags)
    ensures out == if id !in old(db.tags.rows) then Code(404) else Code(200)
    ensures out == Code(200) ==> db.tags == old(db.tags).Delete(id)
    ensures out != Code(200) ==> db.tags == old(db.tags)
    ensures db.postTags == old(db.postTags)
  {
    if id !in db.tags.rows {
      return Code(404);
    }
    db.SetTags(db.tags.Delete(id));
    out := Code(200);
  }
}
