/** The tables of the social backend and the response a controller action sends.
    Column names follow the application's models; timestamps are left out
    because row ids already give creation order. */
module Schema {
  import opened Tables

  /** A registered account; `role` is the global role, "user" or "admin". */
  datatype User = User(firstName: string, lastName: string, email: string,
                       password: string, role: string, pfImgUrl: string)

  /** `ownerId` names a user; `status` is "public" or "private" by convention only. */
  datatype Group = Group(title: string, imgUrl: string, ownerId: nat, status: string)

  /** A membership row; `role` is the role inside the group ("member" or "admin"). */
  datatype Member = Member(groupId: nat, userId: nat, role: string)

  datatype Invite = Invite(groupId: nat, userId: nat)

  datatype JoinRequest = JoinRequest(groupId: nat, userId: nat)

  datatype Post = Post(userId: nat, groupId: Option<nat>, title: string, description: string,
                       imgUrl: string, status: string)

  datatype PostTag = PostTag(postId: nat, tagId: nat)

  datatype Tag = Tag(name: string)

  /** `replyTo` is the `reply_cmt_id` column: the parent comment, if any. */
  datatype Comment = Comment(userId: nat, postId: nat, text: string, replyTo: Option<nat>)

  datatype Like = Like(userId: nat, postId: nat)

  /** `followerId` follows `userId`. */
  datatype Follow = Follow(userId: nat, followerId: nat)

  datatype Folder = Folder(userId: nat, title: string, description: string, status: string)

  datatype SavedPost = SavedPost(userId: nat, postId: nat, folderId: nat)

  /** A row of the password-reset token table. */
  datatype ResetToken = ResetToken(email: string, token: string)

  /** What a request ends with: the `status` field of the JSON body and the HTTP
      code (they differ in a few places), or an uncaught error, which the
      framework turns into a 500 page. */
  datatype Outcome = Respond(body: int, http: int) | Crash

  /** A response whose body status and HTTP code agree. */
  function Code(c: int): Outcome
  {
    Respond(c, c)
  }

  const ADMIN: string := "admin"
  const MEMBER: string := "member"
  const USER: string := "user"
  const PUBLIC: string := "public"
  const PRIVATE: string := "private"

  /** Membership rows of `userId` in `groupId`. */
  function MemberOf(groupId: nat, userId: nat): Member -> bool
  {
    (m: Member) => m.groupId == groupId && m.userId == userId
  }

  /** Membership rows of `groupId`. */
  function InGroup(groupId: nat): Member -> bool
  {
    (m: Member) => m.groupId == groupId
  }

  /** Posts attached to `groupId`. */
  function PostInGroup(groupId: nat): Post -> bool
  {
    (p: Post) => p.groupId == Some(groupId)
  }

  /** Users with this e-mail address. */
  function WithEmail(email: string): User -> bool
  {
    (u: User) => u.email == email
  }

  /** Token rows for this e-mail address. */
  function TokenFor(email: string): ResetToken -> bool
  {
    (t: ResetToken) => t.email == email
  }

  /** At most one token row per e-mail address. */
  ghost predicate OneTokenPerEmail(t: Table<ResetToken>)
  {
    forall i, j :: i in t.rows && j in t.rows && t.rows[i].email == t.rows[j].email ==> i == j
  }

  class Database {
    var users: Table<User>
    var groups: Table<Group>
    var members: Table<Member>
    var invites: Table<Invite>
    var requests: Table<JoinRequest>
    var posts: Table<Post>
    var postTags: Table<PostTag>
    var tags: Table<Tag>
    var comments: Table<Comment>
    var likes: Table<Like>
    var follows: Table<Follow>
    var folders: Table<Folder>
    var saved: Table<SavedPost>
    var resetTokens: Table<ResetToken>

    /** Every table is well formed, and membership rows are only ever
        written for a group that exists, so each names a group id the
        sequence has handed out.  The pair-uniqueness invariants are stated
        separately, on the actions that write those tables. */
    ghost predicate Valid()
      reads this
    {
      users.Valid() && groups.Valid() && members.Valid() && invites.Valid() &&
      requests.Valid() && posts.Valid() && postTags.Valid() && tags.Valid() &&
      comments.Valid() && likes.Valid() && follows.Valid() && folders.Valid() &&
      saved.Valid() && resetTokens.Valid() &&
      forall k :: k in members.rows ==> members.rows[k].groupId < groups.next
    }

    /** One invite and one join request per (group, user), one like per
        (user, post), one follow edge per pair, one saved row per (user, post,
        folder), unique tag names and one reset token per e-mail: each is
        checked by the action that inserts into the table. */
    ghost predicate Unique()
      reads this
    {
      NoDup(invites) && NoDup(requests) && NoDup(likes) && NoDup(follows) &&
      NoDup(saved) && NoDup(tags) && OneTokenPerEmail(resetTokens)
    }

    constructor ()
      ensures Valid() && Unique()
      ensures users.rows == map[] && groups.rows == map[] && members.rows == map[]
      ensures invites.rows == map[] && requests.rows == map[] && posts.rows == map[]
      ensures postTags.rows == map[] && tags.rows == map[] && comments.rows == map[]
      ensures likes.rows == map[] && follows.rows == map[] && folders.rows == map[]
      ensures saved.rows == map[] && resetTokens.rows == map[]
    {
      users, groups, members := Table(map[], 1), Table(map[], 1), Table(map[], 1);
      invites, requests, posts := Table(map[], 1), Table(map[], 1), Table(map[], 1);
      postTags, tags, comments := Table(map[], 1), Table(map[], 1), Table(map[], 1);
      likes, follows, folders := Table(map[], 1), Table(map[], 1), Table(map[], 1);
      saved, resetTokens := Table(map[], 1), Table(map[], 1);
    }

    /* One writer per table.  Each replaces one table and keeps `Valid()`;
       the frame `this`field` says that no other table changes. */

    method SetUsers(t: Table<User>)
      requires Valid() && t.Valid()
      modifies this`users
      ensures Valid() && users == t
    {
      users := t;
    }

    method SetGroups(t: Table<Group>)
      requires Valid() && t.Valid()
      requires t.next >= groups.next
      modifies this`groups
      ensures Valid() && groups == t
    {
      groups := t;
    }

    method SetMembers(t: Table<Member>)
      requires Valid() && t.Valid()
      requires forall k :: k in t.rows ==> t.rows[k].groupId < groups.next
      modifies this`members
      ensures Valid() && members == t
    {
      members := t;
    }

    method SetInvites(t: Table<Invite>)
      requires Valid() && t.Valid()
      modifies this`invites
      ensures Valid() && invites == t
    {
      invites := t;
    }

    method SetRequests(t: Table<JoinRequest>)
      requires Valid() && t.Valid()
      modifies this`requests
      ensures Valid() && requests == t
    {
      requests := t;
    }

    method SetPosts(t: Table<Post>)
      requires Valid() && t.Valid()
      modifies this`posts
      ensures Valid() && posts == t
    {
      posts := t;
    }

    method SetPostTags(t: Table<PostTag>)
      requires Valid() && t.Valid()
      modifies this`postTags
      ensures Valid() && postTags == t
    {
      postTags := t;
    }

    method SetTags(t: Table<Tag>)
      requires Valid() && t.Valid()
      modifies this`tags
      ensures Valid() && tags == t
    {
      tags := t;
    }

    method SetComments(t: Table<Comment>)
      requires Valid() && t.Valid()
      modifies this`comments
      ensures Valid() && comments == t
    {
      comments := t;
    }

    method SetLikes(t: Table<Like>)
      requires Valid() && t.Valid()
      modifies this`likes
      ensures Valid() && likes == t
    {
      likes := t;
    }

    method SetFollows(t: Table<Follow>)
      requires Valid() && t.Valid()
      modifies this`follows
      ensures Valid() && follows == t
    {
      follows := t;
    }

    method SetFolders(t: Table<Folder>)
      requires Valid() && t.Valid()
      modifies this`folders
      ensures Valid() && folders == t
    {
      folders := t;
    }

    method SetSaved(t: Table<SavedPost>)
      requires Valid() && t.Valid()
      modifies this`saved
      ensures Valid() && saved == t
    {
      saved := t;
    }

    method SetResetTokens(t: Table<ResetToken>)
      requires Valid() && t.Valid()
      modifies this`resetTokens
      ensures Valid() && resetTokens == t
    {
      resetTokens := t;
    }
  }
}
