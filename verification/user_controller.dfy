/** Accounts: the password rule, registration, generated passwords for new
    admins, password change, the admin role, account deletion and the
    profile counters.  Password hashing is the pair of parameters `make`
    (hash a password) and `check` (does a password match a hash). */
module UserController {
  import opened Tables
  import opened Schema

  predicate IsLower(c: char) { 'a' <= c <= 'z' }
  predicate IsUpper(c: char) { 'A' <= c <= 'Z' }
  predicate IsDigit(c: char) { '0' <= c <= '9' }

  const LOWER: string := "abcdefghijklmnopqrstuvwxyz"
  const UPPER: string := "ABCDEFGHIJKLMNOPQRSTUVWXYZ"
  const DIGITS: string := "0123456789"
  const SPECIAL: string := "@$!%*#?&"
  /** The 70 characters a generated password is drawn from. */
  const ALPHABET: string := LOWER + UPPER + DIGITS + SPECIAL

  predicate IsSpecial(c: char) { c in SPECIAL }

  predicate HasLower(s: string) { exists i :: 0 <= i < |s| && IsLower(s[i]) }
  predicate HasUpper(s: string) { exists i :: 0 <= i < |s| && IsUpper(s[i]) }
  predicate HasDigit(s: string) { exists i :: 0 <= i < |s| && IsDigit(s[i]) }
  predicate HasSpecial(s: string) { exists i :: 0 <= i < |s| && IsSpecial(s[i]) }

  /** The rule registration and password change put on a new password: at
      least 8 characters, with a lowercase letter, an uppercase letter, a
      digit and one of `@$!%*#?&`. */
  predicate StrongPassword(pw: string)
  {
    |pw| >= 8 && HasLower(pw) && HasUpper(pw) && HasDigit(pw) && HasSpecial(pw)
  }

  /** The four character classes and where they sit in the alphabet. */
  lemma {:induction false} Classes()
    ensures |LOWER| == 26 && |UPPER| == 26 && |DIGITS| == 10 && |SPECIAL| == 8 && |ALPHABET| == 70
    ensures forall i :: 0 <= i < 26 ==> IsLower(LOWER[i]) && ALPHABET[i] == LOWER[i]
    ensures forall i :: 0 <= i < 26 ==> IsUpper(UPPER[i]) && ALPHABET[26 + i] == UPPER[i]
    ensures forall i :: 0 <= i < 10 ==> IsDigit(DIGITS[i]) && ALPHABET[52 + i] == DIGITS[i]
    ensures forall i :: 0 <= i < 8 ==> ALPHABET[62 + i] == SPECIAL[i]
  {
    assert LOWER == seq(26, i requires 0 <= i < 26 => (('a' as int) + i) as char);
    assert UPPER == seq(26, i requires 0 <= i < 26 => (('A' as int) + i) as char);
    assert DIGITS == seq(10, i requires 0 <= i < 10 => (('0' as int) + i) as char);
  }

  /** `perm` lists every index below `n` exactly once. */
  predicate IsPermutation(perm: seq<nat>, n: nat)
  {
    |perm| == n && (forall i :: 0 <= i < n ==> perm[i] < n) && (forall j :: 0 <= j < n ==> j in perm)
  }

  /** `str_shuffle`, with its random order given as the permutation `perm`:
      every character of `s` ends up somewhere, and nothing else appears. */
  function Shuffle(s: string, perm: seq<nat>): (r: string)
    requires IsPermutation(perm, |s|)
    ensures |r| == |s|
    ensures forall i :: 0 <= i < |r| ==> r[i] in s
  {
    seq(|s|, i requires 0 <= i < |s| => s[perm[i]])
  }

  /** Shuffling loses no character: each position of `s` reappears. */
  lemma {:induction false} ShuffleKeeps(s: string, perm: seq<nat>, j: nat)
    requires IsPermutation(perm, |s|) && j < |s|
    ensures exists i :: 0 <= i < |s| && Shuffle(s, perm)[i] == s[j]
  {
    assert j in perm;
    var i :| 0 <= i < |perm| && perm[i] == j;
    assert Shuffle(s, perm)[i] == s[perm[i]];
  }

  function Max(a: int, b: int): int { if a < b then b else a }

  /** `generatePassword`: one lowercase letter, one uppercase letter, one
      digit and one special character, then characters from the whole
      alphabet up to `length`, shuffled.  The `rand` draws are `picks` (an
      index into the set each position draws from) and the shuffle is `perm`.
      The password is `max(length, 4)` long, drawn from the alphabet, holds
      every class, and so meets the password rule once `length` is at least
      8 (the default is 12). */
  method GeneratePassword(length: int, picks: seq<nat>, perm: seq<nat>) returns (pw: string)
    requires |picks| == Max(length, 4)
    requires picks[0] < 26 && picks[1] < 26 && picks[2] < 10 && picks[3] < 8
    requires forall i :: 4 <= i < |picks| ==> picks[i] < 70
    requires IsPermutation(perm, |picks|)
    ensures |pw| == Max(length, 4)
    ensures forall i :: 0 <= i < |pw| ==> pw[i] in ALPHABET
    ensures HasLower(pw) && HasUpper(pw) && HasDigit(pw) && HasSpecial(pw)
    ensures length >= 8 ==> StrongPassword(pw)
  {
    Classes();
    var s := [LOWER[picks[0]], UPPER[picks[1]], DIGITS[picks[2]], SPECIAL[picks[3]]];
    assert s[0] == ALPHABET[picks[0]] && s[1] == ALPHABET[26 + picks[1]];
    assert s[2] == ALPHABET[52 + picks[2]] && s[3] == ALPHABET[62 + picks[3]];
    var i := 4;
    while i < length
      invariant 4 <= i <= Max(length, 4) && |s| == i
      invariant IsLower(s[0]) && IsUpper(s[1]) && IsDigit(s[2]) && IsSpecial(s[3])
      invariant forall j :: 0 <= j < |s| ==> s[j] in ALPHABET
    {
      s := s + [ALPHABET[picks[i]]];
      i := i + 1;
    }
    pw := Shuffle(s, perm);
    ShuffleKeeps(s, perm, 0);
    ShuffleKeeps(s, perm, 1);
    ShuffleKeeps(s, perm, 2);
    ShuffleKeeps(s, perm, 3);
    var a :| 0 <= a < |pw| && pw[a] == s[0];
    var b :| 0 <= b < |pw| && pw[b] == s[1];
    var c :| 0 <= c < |pw| && pw[c] == s[2];
    var d :| 0 <= d < |pw| && pw[d] == s[3];
    assert IsLower(pw[a]) && IsUpper(pw[b]) && IsDigit(pw[c]) && IsSpecial(pw[d]);
  }

  /** The profile image a user gets when none is given. */
  const DEFAULT_PF_IMG_URL: string := "https://i.pinimg.com/564x/25/ee/de/25eedef494e9b4ce02b14990c9b5db2d.jpg"

  /** PHP's `!$x` on a request string: true for the empty string and for "0". */
  predicate Falsy(s: string)
  {
    s == "" || s == "0"
  }

  /** The `!$request->pf_img_url` choice: a falsy value ("" or "0") is
      replaced by the default; the stored URL is never itself falsy. */
  function PfImgUrl(given: string): (url: string)
    ensures !Falsy(url)
    ensures Falsy(given) <==> url == DEFAULT_PF_IMG_URL && given != DEFAULT_PF_IMG_URL
    ensures !Falsy(given) ==> url == given
  {
    if Falsy(given) then DEFAULT_PF_IMG_URL else given
  }

  /** `createUser`: the validator (names required, a well-formed e-mail, as
      `emailOk`, not yet registered, and the password rule) answers 401;
      otherwise a "user" account is created with the hashed password. */
  method CreateUser(db: Database, firstName: string, lastName: string, email: string, emailOk: bool,
                    password: string, pfImgUrl: string, make: string -> string)
    returns (out: Outcome)
    requires db.Valid()
    modifies db`users
    ensures db.Valid()
    ensures out == if firstName == "" || lastName == "" || !emailOk ||
                      old(db.users.Any(WithEmail(email))) || !StrongPassword(password) then Code(401)
                   else Code(200)
    ensures out == Code(200) ==>
              db.users == old(db.users).Insert(User(firstName, lastName, email, make(password), USER, PfImgUrl(pfImgUrl)))
    ensures out != Code(200) ==> db.users == old(db.users)
  {
    if firstName == "" || lastName == "" || !emailOk || db.users.Any(WithEmail(email)) || !StrongPassword(password) {
      return Code(401);
    }
    db.SetUsers(db.users.Insert(User(firstName, lastName, email, make(password), USER, PfImgUrl(pfImgUrl))));
    out := Code(200);
  }

  /** `createAdmin`: the validator (401); an e-mail that belongs to an admin
      is 400; one that belongs to another account promotes the first such
      account to "admin"; a new e-mail creates an "admin" account whose
      password is generated (and sent by mail, which is not modelled). */
  method CreateAdmin(db: Database, firstName: string, lastName: string, email: string, emailOk: bool,
                     pfImgUrl: string, make: string -> string, picks: seq<nat>, perm: seq<nat>)
    returns (out: Outcome, password: string)
    requires db.Valid()
    requires |picks| == 12 && picks[0] < 26 && picks[1] < 26 && picks[2] < 10 && picks[3] < 8
    requires (forall i :: 4 <= i < 12 ==> picks[i] < 70) && IsPermutation(perm, 12)
    modifies db`users
    ensures db.Valid()
    ensures var e := old(db.users.First(WithEmail(email)));
            out == if firstName == "" || lastName == "" || !emailOk then Code(401)
                   else if e.Some? && old(db.users.rows[e.value]).role == ADMIN then Code(400)
                   else Code(200)
    ensures out == Code(200) ==>
              match old(db.users.First(WithEmail(email)))
              case Some(k) => db.users == old(db.users).Put(k, old(db.users.rows[k]).(role := ADMIN))
              case None =>
                StrongPassword(password) &&
                db.users == old(db.users).Insert(User(firstName, lastName, email, make(password), ADMIN, PfImgUrl(pfImgUrl)))
    ensures out != Code(200) ==> db.users == old(db.users)
  {
    password := "";
    if firstName == "" || lastName == "" || !emailOk {
      return Code(401), password;
    }
    var e := db.users.First(WithEmail(email));
    if e.Some? {
      var u := db.users.rows[e.value];
      if u.role == ADMIN {
        return Code(400), password;
      }
      db.SetUsers(db.users.Put(e.value, u.(role := ADMIN)));
      return Code(200), password;
    }
    password := GeneratePassword(12, picks, perm);
    db.SetUsers(db.users.Insert(User(firstName, lastName, email, make(password), ADMIN, PfImgUrl(pfImgUrl))));
    out := Code(200);
  }

  /** After a successful `createAdmin`, the first account with that e-mail
      is an admin. */
  lemma {:induction false} CreateAdminMakesAdmin(users: Table<User>, firstName: string, lastName: string,
                                                 email: string, pfImgUrl: string, hash: string)
    requires users.Valid()
    ensures var after := match users.First(WithEmail(email))
                         case Some(k) => users.Put(k, users.rows[k].(role := ADMIN))
                         case None => users.Insert(User(firstName, lastName, email, hash, ADMIN, PfImgUrl(pfImgUrl)));
            after.Valid() && after.First(WithEmail(email)).Some? &&
            after.rows[after.First(WithEmail(email)).value].role == ADMIN
  {
    match users.First(WithEmail(email))
    case Some(k) =>
      var after := users.Put(k, users.rows[k].(role := ADMIN));
      assert WithEmail(email)(after.rows[k]);
    case None =>
      var after := users.Insert(User(firstName, lastName, email, hash, ADMIN, PfImgUrl(pfImgUrl)));
      assert WithEmail(email)(after.rows[users.next]);
  }

  /** `updateUserPassword`: the validator (old password given, the new one
      meeting the password rule) answers 401, and so does a wrong old
      password or a new password that matches the stored hash; otherwise the
      stored hash is replaced. */
  method UpdateUserPassword(db: Database, actor: nat, oldPassword: string, newPassword: string,
                            check: (string, string) -> bool, make: string -> string)
    returns (out: Outcome)
    requires db.Valid() && actor in db.users.rows
    modifies db`users
    ensures db.Valid()
    ensures var stored := old(db.users.rows[actor]).password;
            out == if oldPassword == "" || !StrongPassword(newPassword) then Code(401)
                   else if !check(oldPassword, stored) then Code(401)
                   else if check(newPassword, stored) then Code(401)
                   else Code(200)
    ensures out == Code(200) ==>
              db.users == old(db.users).Put(actor, old(db.users.rows[actor]).(password := make(newPassword)))
    ensures out != Code(200) ==> db.users == old(db.users)
  {
    var u := db.users.rows[actor];
    if oldPassword == "" || !StrongPassword(newPassword) {
      return Code(401);
    }
    if !check(oldPassword, u.password) || check(newPassword, u.password) {
      return Code(401);
    }
    db.SetUsers(db.users.Put(actor, u.(password := make(newPassword))));
    out := Code(200);
  }

  /** `removeAdmin`: the target's existence (404) is checked before the
      actor's role (403); success makes the target a plain "user". */
  method RemoveAdmin(db: Database, actor: nat, id: nat) returns (out: Outcome)
    requires db.Valid() && actor in db.users.rows
    modifies db`users
    ensures db.Valid()
    ensures out == if id !in old(db.users.rows) then Code(404)
                   else if old(db.users.rows[actor]).role != ADMIN then Code(403)
                   else Code(200)
    ensures out == Code(200) ==> db.users == old(db.users).Put(id, old(db.users.rows[id]).(role := USER))
    ensures out != Code(200) ==> db.users == old(db.users)
  {
    if id !in db.users.rows {
      return Code(404);
    }
    if db.users.rows[actor].role != ADMIN {
      return Code(403);
    }
    db.SetUsers(db.users.Put(id, db.users.rows[id].(role := USER)));
    out := Code(200);
  }

  function InviteTo(id: nat): Invite -> bool { (r: Invite) => r.userId == id }
  function RequestBy(id: nat): JoinRequest -> bool { (r: JoinRequest) => r.userId == id }
  function MembershipOf(id: nat): Member -> bool { (r: Member) => r.userId == id }
  function OwnedBy(id: nat): Group -> bool { (g: Group) => g.ownerId == id }
  function PostBy(id: nat): Post -> bool { (p: Post) => p.userId == id }
  function FolderBy(id: nat): Folder -> bool { (f: Folder) => f.userId == id }
  function LikeBy(id: nat): Like -> bool { (l: Like) => l.userId == id }
  function SavedByUser(id: nat): SavedPost -> bool { (s: SavedPost) => s.userId == id }
  function Followed(id: nat): Follow -> bool { (e: Follow) => e.userId == id }
  function Following(id: nat): Follow -> bool { (e: Follow) => e.followerId == id }

  /** Posts filed under a group that `groups` says `id` owns. */
  function InOwnedGroup(groups: Table<Group>, id: nat): Post -> bool
  {
    (p: Post) => p.groupId.Some? && p.groupId.value in groups.rows && groups.rows[p.groupId.value].ownerId == id
  }

  /** A post filed under one of the groups `done`. */
  predicate InGroupOf(done: seq<nat>, q: Post)
  {
    q.groupId.Some? && q.groupId.value in done
  }

  /** The state of the group loop of `deleteUser` once the groups `done`
      have been handled: those groups and their posts are gone, every other
      row is as it was. */
  ghost predicate DroppedSoFar(groups: Table<Group>, posts: Table<Post>, g: Table<Group>, p: Table<Post>, done: seq<nat>)
  {
    g.next == groups.next && p.next == posts.next &&
    (forall k :: k in g.rows <==> k in groups.rows && k !in done) &&
    (forall k :: k in g.rows ==> g.rows[k] == groups.rows[k]) &&
    (forall k :: k in p.rows <==> k in posts.rows && !InGroupOf(done, posts.rows[k])) &&
    (forall k :: k in p.rows ==> p.rows[k] == posts.rows[k])
  }

  /** One turn of the group loop: the group's posts, then the group. */
  lemma DropStep(groups: Table<Group>, posts: Table<Post>, g: Table<Group>, p: Table<Post>, done: seq<nat>, x: nat)
    requires DroppedSoFar(groups, posts, g, p, done)
    ensures DroppedSoFar(groups, posts, g.Delete(x), p.DeleteWhere(PostInGroup(x)), done + [x])
  {
    var p' := p.DeleteWhere(PostInGroup(x));
    forall k ensures k in p'.rows <==> k in posts.rows && !InGroupOf(done + [x], posts.rows[k]) {
      if k in posts.rows {
        var q := posts.rows[k];
        assert InGroupOf(done + [x], q) <==> InGroupOf(done, q) || q.groupId == Some(x);
      }
    }
  }

  /** The group half of `DroppedAll`. */
  lemma DroppedGroups(groups: Table<Group>, g: Table<Group>, id: nat)
    requires groups.Valid() && g.next == groups.next
    requires forall k :: k in g.rows <==> k in groups.rows && k !in groups.Where(OwnedBy(id))
    requires forall k :: k in g.rows ==> g.rows[k] == groups.rows[k]
    ensures g == groups.DeleteWhere(OwnedBy(id))
  {
    var ids := groups.Where(OwnedBy(id));
    var dg := groups.DeleteWhere(OwnedBy(id));
    forall k ensures k in g.rows <==> k in dg.rows {
      assert k in ids <==> k in groups.rows && OwnedBy(id)(groups.rows[k]);
    }
    assert g.rows == dg.rows;
  }

  /** The post half of `DroppedAll`. */
  lemma DroppedPosts(groups: Table<Group>, posts: Table<Post>, p: Table<Post>, id: nat)
    requires groups.Valid() && p.next == posts.next
    requires forall k :: k in p.rows <==> k in posts.rows && !InGroupOf(groups.Where(OwnedBy(id)), posts.rows[k])
    requires forall k :: k in p.rows ==> p.rows[k] == posts.rows[k]
    ensures p == posts.DeleteWhere(InOwnedGroup(groups, id))
  {
    var ids := groups.Where(OwnedBy(id));
    var dp := posts.DeleteWhere(InOwnedGroup(groups, id));
    forall k | k in posts.rows
      ensures InGroupOf(ids, posts.rows[k]) <==> InOwnedGroup(groups, id)(posts.rows[k])
    {
      var q := posts.rows[k];
      if q.groupId.Some? {
        assert q.groupId.value in ids <==>
               q.groupId.value in groups.rows && OwnedBy(id)(groups.rows[q.groupId.value]);
      }
    }
    assert p.rows == dp.rows;
  }

  /** After every owned group is handled, the loop has deleted exactly the
      owned groups and the posts filed under them. */
  lemma DroppedAll(groups: Table<Group>, posts: Table<Post>, g: Table<Group>, p: Table<Post>, id: nat)
    requires groups.Valid() && DroppedSoFar(groups, posts, g, p, groups.Where(OwnedBy(id)))
    ensures g == groups.DeleteWhere(OwnedBy(id))
    ensures p == posts.DeleteWhere(InOwnedGroup(groups, id))
  {
    DroppedGroups(groups, g, id);
    DroppedPosts(groups, posts, p, id);
  }

  /** The `foreach` over the user's groups in `deleteUser`, over the group
      ids `ids`: each group's posts go, then the group. */
  method DropGroups(groups: Table<Group>, posts: Table<Post>, ids: seq<nat>)
    returns (g: Table<Group>, p: Table<Post>)
    ensures DroppedSoFar(groups, posts, g, p, ids)
  {
    g, p := groups, posts;
    for i := 0 to |ids|
      invariant DroppedSoFar(groups, posts, g, p, ids[..i])
    {
      DropStep(groups, posts, g, p, ids[..i], ids[i]);
      assert ids[..i + 1] == ids[..i] + [ids[i]];
      p, g := p.DeleteWhere(PostInGroup(ids[i])), g.Delete(ids[i]);
    }
    assert ids[..|ids|] == ids;
  }

  /** The group loop run over the groups `id` owns. */
  method DropOwnedGroups(groups: Table<Group>, posts: Table<Post>, id: nat)
    returns (g: Table<Group>, p: Table<Post>)
    requires groups.Valid() && posts.Valid()
    ensures g == groups.DeleteWhere(OwnedBy(id))
    ensures p == posts.DeleteWhere(InOwnedGroup(groups, id))
  {
    g, p := DropGroups(groups, posts, groups.Where(OwnedBy(id)));
    DroppedAll(groups, posts, g, p, id);
  }

  /** `deleteUser`: a non-admin actor gets 403 before the target is looked
      up (404).  Success deletes the account, the user's invites, requests
      and memberships, the groups the user owns together with their posts,
      the user's posts, folders, likes and saved rows, and follow edges in
      both directions. */
  method DeleteUser(db: Database, actor: nat, id: nat) returns (out: Outcome)
    requires db.Valid() && actor in db.users.rows
    modifies db`users, db`invites, db`requests, db`members, db`groups, db`posts,
             db`folders, db`likes, db`saved, db`follows
    ensures db.Valid()
    ensures out == if old(db.users.rows[actor]).role != ADMIN then Code(403)
                   else if id !in old(db.users.rows) then Code(404)
                   else Code(200)
    ensures out == Code(200) ==>
              db.users == old(db.users).Delete(id) &&
              db.invites == old(db.invites).DeleteWhere(InviteTo(id)) &&
              db.requests == old(db.requests).DeleteWhere(RequestBy(id)) &&
              db.members == old(db.members).DeleteWhere(MembershipOf(id)) &&
              db.groups == old(db.groups).DeleteWhere(OwnedBy(id)) &&
              db.posts == old(db.posts).DeleteWhere(InOwnedGroup(old(db.groups), id)).DeleteWhere(PostBy(id)) &&
              db.folders == old(db.folders).DeleteWhere(FolderBy(id)) &&
              db.likes == old(db.likes).DeleteWhere(LikeBy(id)) &&
              db.saved == old(db.saved).DeleteWhere(SavedByUser(id)) &&
              db.follows == old(db.follows).DeleteWhere(Followed(id)).DeleteWhere(Following(id))
    ensures out != Code(200) ==>
              db.users == old(db.users) && db.invites == old(db.invites) && db.requests == old(db.requests) &&
              db.members == old(db.members) && db.groups == old(db.groups) && db.posts == old(db.posts) &&
              db.folders == old(db.folders) && db.likes == old(db.likes) && db.saved == old(db.saved) &&
              db.follows == old(db.follows)
  {
    if db.users.rows[actor].role != ADMIN {
      return Code(403);
    }
    if id !in db.users.rows {
      return Code(404);
    }
    DeleteAccountRows(db, id);
    DeleteContent(db, id);
    out := Code(200);
  }

  /** The first half of the cascade: the account, then its invites, join
      requests and memberships. */
  method DeleteAccountRows(db: Database, id: nat)
    requires db.Valid()
    modifies db`users, db`invites, db`requests, db`members
    ensures db.Valid()
    ensures db.users == old(db.users).Delete(id)
    ensures db.invites == old(db.invites).DeleteWhere(InviteTo(id))
    ensures db.requests == old(db.requests).DeleteWhere(RequestBy(id))
    ensures db.members == old(db.members).DeleteWhere(MembershipOf(id))
  {
    db.SetUsers(db.users.Delete(id));
    db.SetInvites(db.invites.DeleteWhere(InviteTo(id)));
    db.SetRequests(db.requests.DeleteWhere(RequestBy(id)));
    db.SetMembers(db.members.DeleteWhere(MembershipOf(id)));
  }

  /** The second half of the cascade: owned groups with their posts, then
      the user's posts, folders, likes, saved rows and follow edges. */
  method DeleteContent(db: Database, id: nat)
    requires db.Valid()
    modifies db`groups, db`posts, db`folders, db`likes, db`saved, db`follows
    ensures db.Valid()
    ensures db.groups == old(db.groups).DeleteWhere(OwnedBy(id))
    ensures db.posts == old(db.posts).DeleteWhere(InOwnedGroup(old(db.groups), id)).DeleteWhere(PostBy(id))
    ensures db.folders == old(db.folders).DeleteWhere(FolderBy(id))
    ensures db.likes == old(db.likes).DeleteWhere(LikeBy(id))
    ensures db.saved == old(db.saved).DeleteWhere(SavedByUser(id))
    ensures db.follows == old(db.follows).DeleteWhere(Followed(id)).DeleteWhere(Following(id))
  {
    var groups, posts := DropOwnedGroups(db.groups, db.posts, id);
    db.SetPosts(posts);
    db.SetGroups(groups);
    db.SetPosts(db.posts.DeleteWhere(PostBy(id)));
    db.SetFolders(db.folders.DeleteWhere(FolderBy(id)));
    db.SetLikes(db.likes.DeleteWhere(LikeBy(id)));
    db.SetSaved(db.saved.DeleteWhere(SavedByUser(id)));
    db.SetFollows(db.follows.DeleteWhere(Followed(id)));
    db.SetFollows(db.follows.DeleteWhere(Following(id)));
  }

  /** What the cascade removes: nothing left names the user as invitee,
      requester, member, group owner, author, folder owner, liker, saver or
      on either end of a follow edge, and no post remains in a group the
      user owned. */
  lemma DeleteUserLeavesNone(users: Table<User>, invites: Table<Invite>, requests: Table<JoinRequest>,
                             members: Table<Member>, groups: Table<Group>, posts: Table<Post>,
                             folders: Table<Folder>, likes: Table<Like>, saved: Table<SavedPost>,
                             follows: Table<Follow>, id: nat)
    ensures id !in users.Delete(id).rows
    ensures forall k :: k in invites.DeleteWhere(InviteTo(id)).rows ==> invites.rows[k].userId != id
    ensures forall k :: k in requests.DeleteWhere(RequestBy(id)).rows ==> requests.rows[k].userId != id
    ensures forall k :: k in members.DeleteWhere(MembershipOf(id)).rows ==> members.rows[k].userId != id
    ensures forall k :: k in groups.DeleteWhere(OwnedBy(id)).rows ==> groups.rows[k].ownerId != id
    ensures forall k :: k in posts.DeleteWhere(InOwnedGroup(groups, id)).DeleteWhere(PostBy(id)).rows ==>
              posts.rows[k].userId != id && !InOwnedGroup(groups, id)(posts.rows[k])
    ensures forall k :: k in folders.DeleteWhere(FolderBy(id)).rows ==> folders.rows[k].userId != id
    ensures forall k :: k in likes.DeleteWhere(LikeBy(id)).rows ==> likes.rows[k].userId != id
    ensures forall k :: k in saved.DeleteWhere(SavedByUser(id)).rows ==> saved.rows[k].userId != id
    ensures forall k :: k in follows.DeleteWhere(Followed(id)).DeleteWhere(Following(id)).rows ==>
              follows.rows[k].userId != id && follows.rows[k].followerId != id
  {
  }

  /** What the cascade leaves behind: other users' membership rows, invites
      and join requests keep their rows even when they name a group the
      user owned, which is now gone. */
  lemma DeleteUserLeavesOthers(invites: Table<Invite>, requests: Table<JoinRequest>, members: Table<Member>, id: nat)
    ensures forall k :: k in members.rows && members.rows[k].userId != id ==>
              k in members.DeleteWhere(MembershipOf(id)).rows
    ensures forall k :: k in invites.rows && invites.rows[k].userId != id ==>
              k in invites.DeleteWhere(InviteTo(id)).rows
    ensures forall k :: k in requests.rows && requests.rows[k].userId != id ==>
              k in requests.DeleteWhere(RequestBy(id)).rows
  {
  }

  /** The counters of the profile. */
  datatype UserData = UserData(id: nat, firstName: string, lastName: string, email: string, role: string,
                               pfImgUrl: string, followers: nat, followings: nat,
                               invites: nat, groupRequests: nat, totalNotifications: nat)

  /** The groups where `id` holds an "admin" membership row. */
  function AdminGroups(members: Table<Member>, id: nat): set<nat>
  {
    set k | k in members.rows && members.rows[k].userId == id && members.rows[k].role == ADMIN :: members.rows[k].groupId
  }

  function RequestIn(groupIds: set<nat>): JoinRequest -> bool
  {
    (r: JoinRequest) => r.groupId in groupIds
  }

  /** The join requests for groups where `id` holds an "admin" membership row. */
  ghost function PendingForAdmin(requests: Table<JoinRequest>, members: Table<Member>, id: nat): set<nat>
  {
    set k | k in requests.rows &&
            exists m :: m in members.rows && members.rows[m] == Member(requests.rows[k].groupId, id, ADMIN)
  }

  /** Counting the requests whose group is in `AdminGroups` counts exactly
      those requests. */
  lemma {:induction false} AdminRequests(requests: Table<JoinRequest>, members: Table<Member>, id: nat)
    ensures requests.Matching(RequestIn(AdminGroups(members, id))) == PendingForAdmin(requests, members, id)
  {
    var adminOf := AdminGroups(members, id);
    forall k | k in requests.rows && requests.rows[k].groupId in adminOf
      ensures exists m :: m in members.rows && members.rows[m] == Member(requests.rows[k].groupId, id, ADMIN)
    {
      var m :| m in members.rows && members.rows[m].userId == id && members.rows[m].role == ADMIN &&
               members.rows[m].groupId == requests.rows[k].groupId;
      assert members.rows[m] == Member(requests.rows[k].groupId, id, ADMIN);
    }
    forall k | k in PendingForAdmin(requests, members, id)
      ensures k in requests.Matching(RequestIn(adminOf))
    {
      var m :| m in members.rows && members.rows[m] == Member(requests.rows[k].groupId, id, ADMIN);
      assert members.rows[m].groupId in adminOf;
    }
  }

  /** `getUserData`: the profile with its counters; the notification count
      is the invites addressed to the user plus the join requests for groups
      where the user holds an "admin" membership row. */
  method GetUserData(db: Database, actor: nat) returns (out: Outcome, data: UserData)
    requires actor in db.users.rows
    requires db.invites.Valid() && db.requests.Valid() && db.follows.Valid()
    ensures out == Code(200)
    ensures data.id == actor && data.email == db.users.rows[actor].email && data.role == db.users.rows[actor].role
    ensures data.followers == |db.follows.Matching(Followed(actor))|
    ensures data.followings == |db.follows.Matching(Following(actor))|
    ensures data.invites == |db.invites.Matching(InviteTo(actor))|
    ensures data.groupRequests == |PendingForAdmin(db.requests, db.members, actor)|
    ensures data.totalNotifications == data.invites + data.groupRequests
  {
    var u := db.users.rows[actor];
    var invites := db.invites.Count(InviteTo(actor));
    var requests := db.requests.Count(RequestIn(AdminGroups(db.members, actor)));
    AdminRequests(db.requests, db.members, actor);
    out := Code(200);
    data := UserData(actor, u.firstName, u.lastName, u.email, u.role, u.pfImgUrl,
                     db.follows.Count(Followed(actor)), db.follows.Count(Following(actor)),
                     invites, requests, invites + requests);
  }
}
