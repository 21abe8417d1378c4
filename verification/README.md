# Social groups backend: a Dafny model

This project models the request handlers of a Laravel social backend:
groups and their members, invites and join requests, posts with tags,
comments, likes, follow edges, folders of saved posts, accounts and
password-reset tokens. It also models the group authorization policy.

The database is one `Schema.Database` object with one field per table.
Each table is a `Tables.Table<Row>`: a map from auto-increment ids to rows,
plus the next id to hand out. A table's natural order (what `get()`,
`first()` and `limit()` return without `orderBy`) is ascending id, and
`created_at` order is id order. Every controller action is a method that
takes the database, the acting user's id and the request inputs. It returns
an `Outcome` and writes only the tables its `modifies` clause names.

An `Outcome` has two forms:

- `Respond(status, http)`: the `status` field of the JSON body and the HTTP
  code. `Code(c)` abbreviates the common case where they are equal. When
  the JSON body has no `status` field at all, the first component repeats
  the HTTP code. This is the case for several answers of
  `CommentController` (lines 140, 223, 226, 306, 311, 315 and 458), for
  `TagController.php:288`, and for every answer of
  `PasswordResetController`.
- `Crash`: PHP reads a property of `null` (or counts a non-array), which
  Laravel turns into a server error.

The group gates of `GroupPolicy` and the password rule are pure functions.
The per-table uniqueness the actions keep (one like per pair, one follow edge
per pair, one invite and one join request per (group, user), unique tag
names, one reset token per address) is stated as `NoDup` / `OneTokenPerEmail`
pre- and postconditions. Each action that inserts into a table carries them.

Inputs that depend on the outside world are parameters:

- password hashing: `make` hashes a password, `check` tests a password
  against a hash;
- `rand`, `str_shuffle` and `Str::random`: the draws are given as `picks`,
  `perm` and `token`;
- `LIKE` search filters: predicates on rows;
- validator rules other than the password rule: booleans such as `urlOk` and
  `emailOk`;
- the post `update` policy: the boolean `mayUpdate`.

## Model

| member | source | states |
|---|---|---|
| GroupPolicy.FirstRole | app/Policies/GroupPolicy.php:33-42 | the role of the actor's first membership row in the group, or none when the actor has no row |
| GroupPolicy.ViewInvite | app/Policies/GroupPolicy.php:29-46 | `view_invite` holds iff the actor is a global admin or its first row in the group has role "admin" |
| GroupPolicy.CreateInvite | app/Policies/GroupPolicy.php:59-78 | `create_invite` is the same predicate |
| GroupPolicy.Update | app/Policies/GroupPolicy.php:80-99 | `update` is the same predicate |
| GroupPolicy.AcceptRequest | app/Policies/GroupPolicy.php:119-136 | `accept_request` is the same predicate |
| GroupPolicy.Delete | app/Policies/GroupPolicy.php:140-159 | `delete` is the same predicate |
| GroupPolicy.DeleteInvite | app/Policies/GroupPolicy.php:161-178 | `delete_invite` is the same predicate |
| GroupPolicy.UpdateMember | app/Policies/GroupPolicy.php:101-117 | `update_member` is an error when the actor has no row in the group, even for a global admin; otherwise the same predicate |
| GroupPolicy.GlobalAdminAuthorized | app/Policies/GroupPolicy.php:36-38 | a global admin passes all six list-based gates whatever the membership table holds |
| GroupPolicy.PlainMemberRefused | app/Policies/GroupPolicy.php:40-42 | a "user" whose first row is missing or not "admin" is refused by all six gates, whether or not it owns the group |
| GroupController.Store | app/Http/Controllers/GroupController.php:314-362 | validation failure is 400 and changes nothing; otherwise one group owned by the actor and exactly one ("admin") membership row for it |
| GroupController.CreatorAuthorized | app/Http/Controllers/GroupController.php:335-351 | after `store` the creator passes the group gate on the new group |
| GroupController.Show | app/Http/Controllers/GroupController.php:402-483 | none for an unknown group; the owner is member and admin; anyone else is member/admin by its first row; `is_requesting` only for private groups |
| GroupController.WithGroupStatus | app/Http/Controllers/GroupController.php:573-581 | every post of the group takes the new status; every other post and every other column is unchanged |
| GroupController.Update | app/Http/Controllers/GroupController.php:533-592 | 404, 403 (`update` gate), 400 in that order, with no change; success writes title and status, keeps the image URL when the request's is empty, and sets the group's posts to the new status |
| GroupController.SetMemberRole | app/Http/Controllers/GroupController.php:629-659 | 404 for an unknown row, an error when its group is gone, 401 unless the actor is the group's owner; only that row's role changes |
| GroupController.PromoteToAdmin | app/Http/Controllers/GroupController.php:629-659 | the owner sets the row's role to "admin" |
| GroupController.DemoteAdmin | app/Http/Controllers/GroupController.php:695-725 | the owner sets the row's role to "member" |
| GroupController.Destroy | app/Http/Controllers/GroupController.php:765-828 | 400, 401, 404, 403 in that order with no change; success deletes the group, its membership rows and its posts, and leaves invites and requests |
| GroupController.DestroyLeavesNoneBehind | app/Http/Controllers/GroupController.php:816-820 | no membership row and no post of the deleted group remains |
| GroupController.JoinPublicGroup | app/Http/Controllers/GroupController.php:863-904 | 404, 400 for an existing member, otherwise one "member" row; the group's status is not consulted |
| GroupController.LeaveGroup | app/Http/Controllers/GroupController.php:940-975 | 400 without a row; otherwise exactly the actor's first row is deleted and the group row is unchanged |
| GroupController.MakeAdmin | app/Http/Controllers/GroupController.php:1044-1057 | the new owner's first row in the group becomes "admin", or one "admin" row is added at the next id; every other row keeps its id and contents, no other row is added, and the next id grows by at most one |
| GroupController.TransferOwnership | app/Http/Controllers/GroupController.php:977-1081 | 404, 400, 400, 401, 404 in that order with no change; success sets the owner and makes the new owner's first row "admin" |
| GroupMemberController.TargetRow | app/Http/Controllers/GroupMemberController.php:294-300 | the target's first row in the group; none for a negative id or no row |
| GroupMemberController.Update | app/Http/Controllers/GroupMemberController.php:252-319 | 404, then the `update_member` gate (403 or error), then 400, 403 for the actor itself, 400 without a target row, 403 for a non-admin touching an "admin" row; otherwise only that row's role becomes the requested string |
| GroupMemberController.Destroy | app/Http/Controllers/GroupMemberController.php:364-422 | the same first checks; a non-admin cannot remove another "admin" but may remove itself; success deletes exactly the target's first row |
| GroupMemberController.EligibleIds | app/Http/Controllers/GroupMemberController.php:87-96 | exactly the existing, search-matching users with no row in the group, in id order |
| GroupMemberController.NotMembersPageSpec | app/Http/Controllers/GroupMemberController.php:87-96 | the page holds at most 50 users, none a member, in id order, and misses no eligible user below its last |
| GroupMemberController.CandidateOf | app/Http/Controllers/GroupMemberController.php:106-107 | the entry is followed iff the actor follows the user and invited iff an invite exists |
| GroupMemberController.GetNotMembers | app/Http/Controllers/GroupMemberController.php:77-114 | 404 for an unknown group; otherwise one entry per user of the page, in order |
| GroupMemberController.Candidates | app/Http/Controllers/GroupMemberController.php:99-111 | the loop yields `CandidateOf` for each listed user, in order |
| GroupMemberController.ListedRows | app/Http/Controllers/GroupMemberController.php:167-179 | exactly the group's rows whose user exists and matches the search, in id order |
| GroupMemberController.Entry | app/Http/Controllers/GroupMemberController.php:181-194 | the entry names the row's user and the id and role of that user's first row in the group |
| GroupMemberController.Show | app/Http/Controllers/GroupMemberController.php:153-206 | 404 for an unknown group; otherwise one entry per listed row |
| GroupMemberController.Entries | app/Http/Controllers/GroupMemberController.php:170-198 | the loop yields one entry per listed row, in order |
| GroupMemberController.ShowEntryIsOwnRow | app/Http/Controllers/GroupMemberController.php:181-194 | with one row per user and group, each entry carries its own row's id and role |
| GroupMemberController.EntryNamesEarlierRow | app/Http/Controllers/GroupMemberController.php:181-194 | an entry always names a row of the same user and group, no later than the listed row |
| GroupInviteController.Index | app/Http/Controllers/GroupInviteController.php:56-84 | 404, 403 (`view_invite`), then every invite of the table, whatever its group |
| GroupInviteController.PendingInvites | app/Http/Controllers/GroupInviteController.php:141-151 | an invite whose group is gone is an error; otherwise one entry per invite with its group |
| GroupInviteController.GetPendingInvites | app/Http/Controllers/GroupInviteController.php:123-151 | exactly the invites addressed to the actor, each with its group; entry `i` is the `i`-th of those invites in id order |
| GroupInviteController.Store | app/Http/Controllers/GroupInviteController.php:205-288 | 404, 403, 400, 404, 400 for a member, 400 for an existing invite; otherwise one invite; one invite per (group, user) is kept |
| GroupInviteController.Accept | app/Http/Controllers/GroupInviteController.php:338-381 | 404; someone else's invite is 403 with HTTP 404 and no change; success adds a "member" row without looking for an existing one and deletes the invite |
| GroupInviteController.RemoveInvite | app/Http/Controllers/GroupInviteController.php:448-479 | deleted iff the actor owns the group, has any "admin" row in it or is the invitee; otherwise 403 and no change |
| GroupInviteController.Destroy | app/Http/Controllers/GroupInviteController.php:430-480 | the invite is found by (group, user); 404 when absent; then `RemoveInvite`; on success exactly the first row holding that invite is deleted |
| GroupInviteController.Destroy2 | app/Http/Controllers/GroupInviteController.php:482-532 | the invite is found by id; 404 when absent; then `RemoveInvite` |
| GroupInviteController.GlobalAdminCannotRemove | app/Http/Controllers/GroupInviteController.php:448-479 | the global admin role alone does not allow withdrawing an invite |
| GroupRequestController.Store | app/Http/Controllers/GroupRequestController.php:60-87 | 400 for a member first; an existing request is deleted (200) even when its group is gone; otherwise 404 or one new request (201); at most one request per (group, user) |
| GroupRequestController.Requesters | app/Http/Controllers/GroupRequestController.php:134-141 | a request whose requester is gone is an error; otherwise one entry per request with its requester |
| GroupRequestController.GetPendingRequests | app/Http/Controllers/GroupRequestController.php:121-144 | 404, 403 without `accept_request`, a crash when a requester is gone, then exactly the group's requests; entry `i` is the `i`-th of them in id order, with its requester's names, e-mail and image |
| GroupRequestController.Update | app/Http/Controllers/GroupRequestController.php:195-232 | a missing request is 404 with HTTP 400; 403 without the gate; success adds a "member" row and deletes the request |
| GroupRequestController.Destroy | app/Http/Controllers/GroupRequestController.php:271-315 | the requester may always withdraw; anyone else needs the gate (403, no change) |
| SavedPostController.SaveLoop | app/Http/Controllers/SavedPostController.php:152-177 | the folder loop in list order: a missing folder stops with 400, another user's folder with 403, keeping earlier flips |
| SavedPostController.FlipFolders | app/Http/Controllers/SavedPostController.php:152-177 | the loop computes `SaveLoop` |
| SavedPostController.Toggle | app/Http/Controllers/SavedPostController.php:163-177 | the row is in the result iff it was not in the input |
| SavedPostController.SaveLoopAllUsable | app/Http/Controllers/SavedPostController.php:152-177 | with only usable folders the loop answers 200 and its rows are the toggled set |
| SavedPostController.SaveLoopNoDup | app/Http/Controllers/SavedPostController.php:163-177 | the loop keeps one saved row per (user, post, folder) |
| SavedPostController.SaveLoopStops | app/Http/Controllers/SavedPostController.php:152-161 | a loop stopped at the first unusable folder keeps exactly the flips of the usable prefix |
| SavedPostController.ToggledElsewhere | app/Http/Controllers/SavedPostController.php:163-177 | rows of other users, posts or unlisted folders are untouched |
| SavedPostController.ToggledParity | app/Http/Controllers/SavedPostController.php:163-177 | a folder's row ends present iff its presence before differs from the parity of the folder's count in the list |
| SavedPostController.ListedTwiceUnchanged | app/Http/Controllers/SavedPostController.php:152-177 | a folder listed twice ends as it was |
| SavedPostController.ToggledTwice | app/Http/Controllers/SavedPostController.php:152-177 | toggling with the same list twice restores the set |
| SavedPostController.SaveLoopTwiceRestores | app/Http/Controllers/SavedPostController.php:152-177 | running `store` twice with the same usable list restores the saved rows |
| SavedPostController.Store | app/Http/Controllers/SavedPostController.php:129-181 | 400 for missing inputs, 404 for an unknown post before any write, then the loop's answer and table |
| SavedPostController.SavedListSpec | app/Http/Controllers/SavedPostController.php:67-93 | every item is marked saved and shows an existing post saved by one of the rows; every surviving row is listed |
| SavedPostController.Items | app/Http/Controllers/SavedPostController.php:70-93 | the loop computes `SavedList` |
| SavedPostController.GetSavedPosts | app/Http/Controllers/SavedPostController.php:50-96 | a folder the actor does not own is 400 "not found"; otherwise the actor's rows of the folder are listed |
| FolderController.PreviewIds | app/Http/Controllers/FolderController.php:71 | the first three of the actor's saved rows of the folder |
| FolderController.PreviewItemsSpec | app/Http/Controllers/FolderController.php:74-84 | a preview has at most one item per row, each an existing post of one of the rows, and misses no row whose post exists |
| FolderController.PreviewAtMostThree | app/Http/Controllers/FolderController.php:71-84 | a preview has at most 3 items, each an existing post the actor saved in that folder |
| FolderController.Preview | app/Http/Controllers/FolderController.php:74-84 | the inner loop computes `PreviewItems` |
| FolderController.EntriesOfIndex | app/Http/Controllers/FolderController.php:70-93 | the overview has one entry per folder, at the folder's position |
| FolderController.Entries | app/Http/Controllers/FolderController.php:70-93 | the outer loop computes `EntriesOf` |
| FolderController.Index | app/Http/Controllers/FolderController.php:62-101 | the actor's folders in id order, each with its preview |
| FolderController.Mark | app/Http/Controllers/FolderController.php:170-178 | one folder's id and title; the folder is marked saved iff the (actor, post, folder) saved row exists |
| FolderController.Marks | app/Http/Controllers/FolderController.php:169-179 | one mark per folder, in order |
| FolderController.GetFoldersByPostId | app/Http/Controllers/FolderController.php:156-182 | 404 for an unknown post; otherwise one mark per folder of the actor, in id order |
| FolderController.Store | app/Http/Controllers/FolderController.php:226-249 | 400 unless the title is given and the status is "public" or "private"; otherwise one folder owned by the actor |
| FolderController.Show | app/Http/Controllers/FolderController.php:298-308 | the folder only when the actor owns it, otherwise 404 |
| FolderController.Update | app/Http/Controllers/FolderController.php:362-392 | 400, 404, 403 in that order with no change; only title, description and status change |
| FolderController.Destroy | app/Http/Controllers/FolderController.php:432-450 | 404, 403 for a non-owner with no change; success deletes the folder and the owner's saved rows in it |
| FolderController.DestroyClearsFolder | app/Http/Controllers/FolderController.php:437-447 | no saved row of the owner in the deleted folder remains, and other rows are kept |
| CommentController.View | app/Http/Controllers/CommentController.php:51-58 | an author who is gone is shown as "Unknown" with an empty picture; otherwise the author's name and picture |
| CommentController.TopIds | app/Http/Controllers/CommentController.php:47 | exactly the post's comments with no parent, newest first |
| CommentController.ReplyIds | app/Http/Controllers/CommentController.php:60-62 | exactly the comments naming the parent, oldest first |
| CommentController.Views | app/Http/Controllers/CommentController.php:64-73 | one view per listed comment, in order |
| CommentController.ThreadOf | app/Http/Controllers/CommentController.php:49-74 | a thread is the comment and the views of its replies |
| CommentController.Index | app/Http/Controllers/CommentController.php:45-84 | one thread per top-level comment of the post, newest first |
| CommentController.IndexTopLevel | app/Http/Controllers/CommentController.php:47 | the threads are exactly the post's top-level comments, newest first, shown as stored |
| CommentController.ThreadReplies | app/Http/Controllers/CommentController.php:60-62 | a thread's replies are exactly the comments naming its top comment, oldest first |
| CommentController.ShownAsReplyIff | app/Http/Controllers/CommentController.php:47-74 | a comment is listed as a reply iff its parent is an existing top-level comment of the post |
| CommentController.NestedReplyHidden | app/Http/Controllers/CommentController.php:47-74 | a reply to a reply, or to a deleted comment, is never listed |
| CommentController.Store | app/Http/Controllers/CommentController.php:129-169 | 422 for invalid input; the parent may be a comment of any post; otherwise the comment is added as given |
| CommentController.Reply | app/Http/Controllers/CommentController.php:214-253 | 422 without text, 404 for an unknown parent; the reply takes the parent's post and names the parent |
| CommentController.ReplyListed | app/Http/Controllers/CommentController.php:231-232 | a reply to a top-level comment is listed under it as its newest reply |
| CommentController.Destroy | app/Http/Controllers/CommentController.php:300-322 | 404 for an unknown comment or post; allowed for a global admin, the author or the post's author (401 otherwise); only the text is blanked |
| CommentController.RedactKeepsThreads | app/Http/Controllers/CommentController.php:314-319 | blanking a text changes no thread and no reply list |
| CommentController.AdminDestroy | app/Http/Controllers/CommentController.php:451-459 | 404, otherwise only that row is deleted |
| CommentController.AdminDestroyOrphansReplies | app/Http/Controllers/CommentController.php:457 | the deleted comment's replies stay in the table but are listed nowhere |
| PostController.LinkedSpec | app/Http/Controllers/PostController.php:576-590 | linking keeps every row, and the new rows are exactly links to the listed ids that name existing tags |
| PostController.LinkTags | app/Http/Controllers/PostController.php:576-590 | the tag loop computes `Linked` |
| PostController.Store | app/Http/Controllers/PostController.php:522-598 | 400 for bad input, 404 for a missing group, both with no write; a post in a group takes the group's status; a tag field that is not an array is an error after the post is saved |
| PostController.ReplacedLinks | app/Http/Controllers/PostController.php:973-988 | after `update` the post's links are exactly links to the listed existing tags, and other posts' links are kept |
| PostController.Update | app/Http/Controllers/PostController.php:917-998 | 404, 403, 400 with no change; the old links go before the tag field is decoded; success writes the columns and the new links |
| PostController.TagRefsSpec | app/Http/Controllers/PostController.php:743-752 | every listed tag exists and is linked; every link to an existing tag is listed |
| PostController.TagDetails | app/Http/Controllers/PostController.php:743-752 | the loop computes `TagRefs` |
| PostController.IsSaved | app/Http/Controllers/PostController.php:730-733 | true iff the actor saved the post in some folder |
| PostController.Show | app/Http/Controllers/PostController.php:698-781 | 404; a private post is refused (401, HTTP 403) to all but its author and global admins; a missing group or author is an error |
| PostController.TaggedPublicSpec | app/Http/Controllers/PostController.php:65-71 | the posts found through tag links are exactly the public posts the links point at |
| PostController.FeedIds | app/Http/Controllers/PostController.php:53-101 | every listed id is a public post |
| PostController.FeedWithoutQuery | app/Http/Controllers/PostController.php:74 | without a query the feed is every public post, once each, newest first |
| PostController.FeedWithQuery | app/Http/Controllers/PostController.php:62-72 | with a query the feed is the public posts linked to the first matching tag, or nothing |
| PostController.FeedEntries | app/Http/Controllers/PostController.php:77-95 | an error iff some listed post's author is gone; otherwise one entry per post |
| PostController.Index | app/Http/Controllers/PostController.php:53-101 | every entry is a public post |
| PostController.RelatedIds | app/Http/Controllers/PostController.php:836-845 | a post is related iff it is not the source and shares a tag with it or has the same author |
| PostController.Related | app/Http/Controllers/PostController.php:817-868 | 404; a private source is refused (401) to all but its author, global admins included; otherwise the related set |
| PostController.Destroy | app/Http/Controllers/PostController.php:1034-1089 | 404; a missing group is an error for a non-admin; 403 unless admin, author or group admin; success deletes the post and its links |
| PostLikeController.LikePost | app/Http/Controllers/PostLikeController.php:42-84 | 404, 403 for a private post of another author (body 401), 400 for a second like; otherwise one like; one like per pair is kept |
| PostLikeController.UnlikePost | app/Http/Controllers/PostLikeController.php:116-155 | the same first checks; 400 without a like; otherwise exactly that like is deleted |
| PostLikeController.LikeThenUnlike | app/Http/Controllers/PostLikeController.php:74-77 | a like then an unlike restore the likes table |
| UserFollowerController.FollowUser | app/Http/Controllers/UserFollowerController.php:47-77 | 401 for yourself, an error for an unknown target, 401 for an existing edge; otherwise one edge; one edge per pair is kept |
| UserFollowerController.UnfollowUser | app/Http/Controllers/UserFollowerController.php:115-140 | 401 for yourself or a missing edge; otherwise exactly that edge is deleted |
| UserFollowerController.FollowThenUnfollow | app/Http/Controllers/UserFollowerController.php:67-70 | a follow then an unfollow restore the edge table |
| UserFollowerController.Follows | app/Http/Controllers/UserFollowerController.php:239-242 | true iff the edge (follower, actor) exists |
| UserFollowerController.FollowerListSpec | app/Http/Controllers/UserFollowerController.php:222-242 | an error iff a search is given and some follower is gone; otherwise one entry per matching follower, `is_following` iff the actor follows them |
| UserFollowerController.Followers | app/Http/Controllers/UserFollowerController.php:222-242 | the loop computes `FollowerList` |
| UserFollowerController.FollowerListStaysNone | app/Http/Controllers/UserFollowerController.php:222-242 | once the listing fails on a prefix it fails on the whole list |
| UserFollowerController.GetUserFollowers | app/Http/Controllers/UserFollowerController.php:206-260 | 404 for an unknown user; otherwise the listing over the user's follower edges |
| UserFollowerController.ListedFollowersFollow | app/Http/Controllers/UserFollowerController.php:218-242 | every listed user follows the given user |
| UserController.Classes | app/Http/Controllers/UserController.php:257-260 | the alphabet's four parts are exactly the lowercase letters, uppercase letters, digits and `@$!%*#?&` |
| UserController.Shuffle | app/Http/Controllers/UserController.php:275 | the shuffle keeps the length and adds no character |
| UserController.ShuffleKeeps | app/Http/Controllers/UserController.php:275 | the shuffle loses no character |
| UserController.GeneratePassword | app/Http/Controllers/UserController.php:254-276 | length max(length, 4), every character from the alphabet, each class present, so the password rule holds from length 8 |
| UserController.PfImgUrl | app/Http/Controllers/UserController.php:97-101 | a falsy image URL ("" or "0", as PHP's `!`) becomes the default image; any other is kept; the stored URL is never falsy |
| UserController.CreateUser | app/Http/Controllers/UserController.php:67-124 | 401 unless the input is valid, the e-mail is new and the password meets the rule; otherwise one "user" account with the hashed password and `PfImgUrl` of the given image |
| UserController.CreateAdmin | app/Http/Controllers/UserController.php:164-251 | 401; 400 for an admin's e-mail with no change; an existing account becomes "admin"; a new e-mail creates an "admin" account with a generated password that meets the rule |
| UserController.CreateAdminMakesAdmin | app/Http/Controllers/UserController.php:186-228 | after success the first account with the e-mail is an admin |
| UserController.UpdateUserPassword | app/Http/Controllers/UserController.php:968-1025 | 401 for invalid input, a wrong old password or an unchanged password; otherwise the stored hash is replaced |
| UserController.RemoveAdmin | app/Http/Controllers/UserController.php:1210-1237 | 404 before 403; success sets the role to "user" |
| UserController.DropStep | app/Http/Controllers/UserController.php:1301-1306 | one turn of the group loop keeps the loop's state |
| UserController.DroppedAll | app/Http/Controllers/UserController.php:1301-1306 | after the loop exactly the owned groups and their posts are gone |
| UserController.DropGroups | app/Http/Controllers/UserController.php:1303-1306 | the loop deletes each group's posts and then the group |
| UserController.DropOwnedGroups | app/Http/Controllers/UserController.php:1301-1306 | the owned groups and their posts are deleted and nothing else |
| UserController.DeleteUser | app/Http/Controllers/UserController.php:1270-1323 | 403 for a non-admin before 404; success deletes the account and every row the cascade names, and nothing else |
| UserController.DeleteAccountRows | app/Http/Controllers/UserController.php:1290-1299 | the account, its invites, requests and memberships are deleted |
| UserController.DeleteContent | app/Http/Controllers/UserController.php:1301-1317 | owned groups and their posts, the user's posts, folders, likes, saved rows and both directions of follow edges are deleted |
| UserController.DeleteUserLeavesNone | app/Http/Controllers/UserController.php:1290-1317 | no row naming the user in any cascaded role remains |
| UserController.DeleteUserLeavesOthers | app/Http/Controllers/UserController.php:1290-1317 | other users' memberships, invites and requests in the user's groups remain |
| UserController.AdminRequests | app/Http/Controllers/UserController.php:530-536 | counting the requests of the groups where the user is admin counts exactly those requests |
| UserController.GetUserData | app/Http/Controllers/UserController.php:524-563 | `total_noti` is the invites to the user plus the requests for groups where the user holds an "admin" row |
| TagController.Store | app/Http/Controllers/TagController.php:133-164 | 400 for a missing, long or taken name; otherwise exactly one tag; names stay unique |
| TagController.Update | app/Http/Controllers/TagController.php:213-251 | 404, 400, 400 when another tag has the name; renaming to its own name is allowed; names stay unique |
| TagController.RenameKeepsUnique | app/Http/Controllers/TagController.php:237-243 | writing a name no other tag holds keeps names unique |
| TagController.Destroy | app/Http/Controllers/TagController.php:286-295 | 404; otherwise only the tag row goes and its links stay |
| PasswordResetController.UpsertSpec | app/Http/Controllers/Auth/PasswordResetController.php:33-40 | afterwards exactly one row for the address, holding the new token; other rows kept |
| PasswordResetController.GenerateToken | app/Http/Controllers/Auth/PasswordResetController.php:21-43 | 404 for an unknown e-mail with no token stored; otherwise the upsert, and the token is returned |
| PasswordResetController.SendResetLinkEmail | app/Http/Controllers/Auth/PasswordResetController.php:51-84 | 400 for a malformed e-mail, 404 for an unknown one, otherwise `generateToken` |
| PasswordResetController.MatchedEmail | app/Http/Controllers/Auth/PasswordResetController.php:109-113 | none iff no row holds the token; otherwise the address of a row holding it |
| PasswordResetController.Reset | app/Http/Controllers/Auth/PasswordResetController.php:92-128 | 400 without token or with a password under 8; 400 for an unknown token; 404 without an account; success replaces the hash and deletes the address's token rows |
| PasswordResetController.ResetConsumesToken | app/Http/Controllers/Auth/PasswordResetController.php:121-124 | no row of the address remains; the token can only be found again through another address's row |
| PasswordResetController.CheckToken | app/Http/Controllers/Auth/PasswordResetController.php:130-152 | 200 iff a token is given and some row holds it, otherwise 400 |

## Left out

- DashboardController, SearchController, ReportController, SocialiteController and the routes are not part of this model: statistics over floats and clocks, raw search SQL, plain CRUD, OAuth and framework dispatch.
- GroupInvitePolicy and GroupRequestPolicy are not part of this model: the controllers' gates resolve to `GroupPolicy`. The `GroupPolicy` stubs `viewAny`, `view`, `create`, `restore` and `forceDelete` have empty bodies.
- Controller actions not listed in the table are not part of this model. These include `getMyGroups`, `getUserPosts`, the mobile and admin listings, profile editing, login and logout, and `getUserFollowings`.
- Mail, Sanctum tokens, `Auth::attempt`, sessions and the unauthenticated (`Auth::user()` null) branches are not modelled. The actor is always an existing user.
- The `try`/`catch` that turns an exception in `createUser` and `createAdmin` into a 500 answer is not modelled.
- Timestamps are left out: `created_at` order is id order.
- Each request is one atomic step. Transactions and concurrent requests are not modelled.
- Hashing is the pair `make`/`check`, with no salt: `make` is a function of the password.
- Validators other than the password rule and the lengths and status values written out are booleans (`urlOk`, `emailOk`). `LIKE` filters are predicates.
- PostController.Related: only the set of related post ids is stated; the display fields of each entry (names, `is_saved`) are not.
- PostController.Update: the post policy is the boolean `mayUpdate`, because the policy's source is not available.
- PostController.Store: tag-list elements that are not integers are not modelled; the decoded list is a sequence of integers.
- SavedPostController.Store: a `folder_id` field that is not an array is not modelled.
- SavedPostController.GetSavedPosts: the ownership test after the folder lookup can never fail, so its 403 branch has no counterpart.
- UserController.GetUserData: only the counters and the notification total are stated, not the profile's display fields.
- UserController.DeleteUserLeavesNone and UserController.DeleteUserLeavesOthers: these restate the cascade's table-by-table effect; they do not cover comments or reports, which the cascade leaves in place.
- PasswordResetController.ResetConsumesToken: the token is not proved unusable outright, because another address can hold the same random token.
