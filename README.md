# van-sns board store, modelled in Dafny

van-sns is a small in-house social board: one page where users keep a profile, write posts, and comment on posts and on each other's comments. An `@name` in a comment notifies that user, as does a reply to their comment. A sidebar roster lists who is online, each with an unread badge. All state lives in four SQLite tables: `posts`, `comments`, `users` and `notifications`. Every operation is a few SQL statements run in sequence.

This project models those statements and the pure logic around them.

- **Store.** `Board.Store` is a class whose fields are the four tables, kept in id (rowid) order, plus the AUTOINCREMENT counters of `sqlite_sequence`. Its methods are the mutators:
  - `set_user` (INSERT OR REPLACE) and `update_user_activity`;
  - `add_post` and `add_comment`;
  - the two delete buttons, with their permission check;
  - mark-read.

  `Valid()` holds the store invariant:
  - ids strictly ascending;
  - no id above the largest one issued;
  - usernames unique.
- **Notification engine.**
  - Mention extraction, the regular expression `@([A-Za-z0-9_]+)`, is a recursive scanner (`MentionScan`). It is proved to return exactly the maximal word runs that follow an `@`.
  - Target collection (`Notify.CollectTargets`) and the insert loop (`Notify.NotificationRows`) are loops over the mentions and over the target set.
- **Queries.**
  - `get_posts` and `get_comments` are filters over the tables.
  - `get_posts` uses SQLite's `LIKE` with `%`/`_` wildcards and ASCII case folding, modelled in full (`SqlLike`).
  - The unread badge count and the joined unread list are in `Inbox`.
- **Presence and roster.**
  - Online means `now - last_active < 10` seconds.
  - The roster loop is a method proved equal to "online users, then offline users, each in table order".
- **Deletes.** The DELETE statements are modelled one by one (`Cascade`):
  - the comment delete statements remove the comment and its direct replies only, plus the notifications pointing at that one comment;
  - a post delete removes the post's comments before the notification subquery runs, so it removes no notification.

  The comment delete button never reaches its statements. Inside `render_comments` the loop variable at index.html/app.py:177 is named `c`, the same name as the cursor, so `c.execute` at line 191 is called on a row tuple and raises `AttributeError`. No table changes. `Board.Store.DeleteComment` models this; `Board.Store.DeleteCommentIntended` runs the statements (see "## Findings").

  Orphaned unread notifications keep counting in the badge but vanish from the unread list (`Inbox`).

Time is an integer number of seconds passed in by the caller. File uploads are represented by the stored path only.

Three consequences of the code's statement order and SQL are easy to miss:
- A post delete removes none of its comments' notifications (index.html/app.py:217-219). The subquery runs after the comments are gone. `Cascade.PostDeleteEffect` proves the notifications table is unchanged.
- The search (index.html/app.py:108-110) does not escape its text. `%` and `_` in it act as `LIKE` wildcards: `SqlLike.UnderscoreIsWildcard`.
- `add_comment` inserts the comment first and only then looks up the parent (index.html/app.py:84-93). A missing parent raises after the comment is stored: `Board.Store.AddComment` returns `ok == false` with the comment kept and no notification.

## Model

| member | source | states |
|---|---|---|
| SqlLike.SearchIsFoldedSubstring | index.html/app.py:108-110 | for a search text with no `%`/`_`, `'%' + s + '%'` LIKE-matches a text exactly when the text contains s up to ASCII case |
| SqlLike.SearchPattern | index.html/app.py:110 | definition of the pattern `f"%{search}%"`: the search text unescaped between two `%` |
| SqlLike.Like | index.html/app.py:108-110 | definition of SQLite's default LIKE: `%` matches any run of characters, `_` any one character, other characters match up to ASCII case |
| SqlLike.UnderscoreIsWildcard | index.html/app.py:110 | the search text is not escaped: searching "a_c" finds "ABC", which does not contain "a_c" |
| MentionScan.RunLength | index.html/app.py:96 | the greedy `+` takes the longest run of `[A-Za-z0-9_]` characters: every character in it is a word character and the next one is not |
| MentionScan.Mentions | index.html/app.py:96 | `re.findall` scanned left to right, a greedy run after each `@` and resuming after it; a text of length n yields at most n/2 names |
| MentionScan.MentionsSound | index.html/app.py:96 | every extracted name is the maximal word run right after some `@` of the text |
| MentionScan.MentionsComplete | index.html/app.py:96 | every maximal word run right after an `@` is extracted; a match never swallows a later `@` |
| MentionScan.MentionsExactly | index.html/app.py:96 | m is extracted if and only if it is the maximal word run after some `@` (no word boundary before `@`, no existence check) |
| MentionScan.MentionsAreWords | index.html/app.py:96 | every extracted name is non-empty and made of `[A-Za-z0-9_]` only |
| Notify.IsTarget | index.html/app.py:90-99 | definition of a target: not the commenter, and either the author of the comment replied to or one of the mentioned names |
| Notify.CollectTargets | index.html/app.py:90-99 | t ends up in the target set if and only if t is not the commenter and t is the replied-to author or mentioned |
| Notify.NotificationRows | index.html/app.py:100-101 | one row per target and no other: unread, pointing at the comment, consecutive AUTOINCREMENT ids, no user twice |
| Queries.GetPosts | index.html/app.py:104-118 | a post is returned if and only if it is in the table and matches the search (title or content LIKE) and the category (when truthy); ids strictly descending |
| Queries.GetPostsUnfiltered | index.html/app.py:104-118 | with no search and no category every post is returned, newest first |
| Queries.PostMatches | index.html/app.py:108-113 | definition of the WHERE clause: an empty search adds no condition, otherwise title or content LIKE `%s%`; a missing or empty category adds none, otherwise an exact category match |
| Queries.SearchFindsSubstrings | index.html/app.py:108-110 | without wildcards the search keeps exactly the posts whose title or content contains the text, ignoring ASCII case |
| Queries.GetComments | index.html/app.py:120-122 | a comment is returned if and only if it belongs to the post and has the given parent; ids strictly ascending |
| Queries.FindComment | index.html/app.py:92-93 | the lookup by id finds nothing exactly when no row has that id, and otherwise a row with that id |
| Queries.ParentAuthor | index.html/app.py:92-93 | definition of the parent lookup: the author of the comment with that id, or nothing when no comment has it |
| Queries.FindPost | index.html/app.py:272 | the lookup by id finds nothing exactly when no post has that id, and otherwise a post with that id |
| Queries.FindCommentUnique | index.html/app.py:24 | with ids in ascending order the row found by id is the only one with that id |
| Cascade.CommentDeleteEffect | index.html/app.py:191-192 | afterwards the comments are exactly those that are neither x nor a direct reply to x, and the notifications exactly those not pointing at x; both stay in id order |
| Cascade.CommentDeleteIsShallow | index.html/app.py:191 | a reply to a reply of x survives, and its parent id then names no comment |
| Cascade.CommentDeleteOrphansReplyNotifications | index.html/app.py:191-192 | a notification about a deleted direct reply is not deleted |
| Cascade.PostDeleteEffect | index.html/app.py:217-219 | the post and exactly the comments of that post go; the notification delete finds no ids, so the notifications table is unchanged |
| Cascade.DeleteCommentRows | index.html/app.py:191 | definition of `DELETE FROM comments WHERE id=? OR parent_id=?`: keeps, in order, the rows that are neither x nor a direct reply to x |
| Cascade.DeleteNotificationsOf | index.html/app.py:192 | definition of `DELETE FROM notifications WHERE comment_id=?`: keeps, in order, the rows not pointing at x |
| Cascade.DeletePostRow | index.html/app.py:217 | definition of `DELETE FROM posts WHERE id=?`: keeps, in order, the other posts |
| Cascade.DeleteCommentsOfPost | index.html/app.py:218 | definition of `DELETE FROM comments WHERE post_id=?`: keeps, in order, the comments of other posts |
| Cascade.CommentIdsOfPost | index.html/app.py:219 | definition of the subquery `SELECT id FROM comments WHERE post_id=?`: the ids of the comments of that post in the table it is run on |
| Cascade.DeleteNotificationsIn | index.html/app.py:219 | definition of `DELETE FROM notifications WHERE comment_id IN (...)`: keeps, in order, the rows whose comment id is not among the ids |
| Inbox.ListWithinCount | index.html/app.py:269-273 | the joined unread list is never longer than the unread badge count |
| Inbox.OrphanCountedNotListed | index.html/app.py:269-273 | an unread notification whose comment is gone makes the list strictly shorter than the count |
| Inbox.PostDeleteLeavesHiddenUnread | index.html/app.py:217-219 | after a post delete, an unread notification about one of its comments still counts in the badge but is missing from the list |
| Inbox.DeletedPostHidesComment | index.html/app.py:218 | after the post's comments are deleted no comment is found under the id of one of them |
| Inbox.UnreadCount | index.html/app.py:239-240 | definition of the badge `COUNT(*)`: the number of rows for that user with is_read 0 |
| Inbox.JoinRow | index.html/app.py:269-273 | definition of one notification through the two inner joins: it yields a line only when it is the user's, unread, its comment exists and that comment's post exists |
| Inbox.UnreadList | index.html/app.py:269-274 | definition of the unread list: the joined lines of the notifications, in notification id order |
| Inbox.MarkReadRows | index.html/app.py:278 | only is_read changes, and it becomes set exactly on the rows with that id |
| Inbox.MarkReadClearsOne | index.html/app.py:278 | marking a notification read lowers its target's unread count by one when it was unread, and changes no count otherwise |
| Users.UpsertUser | index.html/app.py:53-61 | the new row is last in table order, no other row has its username, rows of other users are kept, and usernames stay unique |
| Users.UpsertKeepsUnique | index.html/app.py:60 | the rows INSERT OR REPLACE keeps all have another username, so with the new row appended usernames stay unique |
| Users.TouchUser | index.html/app.py:63-66 | only last_active of the rows with that username changes; with no such row nothing changes |
| Users.TouchKeepsUnique | index.html/app.py:65 | the update keeps usernames unique |
| Users.IconPath | index.html/app.py:56 | `os.path.join("uploads", name + "_icon.png")` on POSIX: the path ends in `<name>_icon.png`; it starts with `uploads/` unless the name starts with `/`, in which case nothing is prepended |
| Users.ProfileRow | index.html/app.py:54-60 | definition of the row set_user writes: the username, display name, icon path only when a file is given, and last_active now |
| Presence.BuildRoster | index.html/app.py:234-245 | the loop builds the online list and the offline list of the users in table order; every line carries its user's flag and unread count |
| Presence.RosterStep | index.html/app.py:242-245 | each user read appends its line to the list of its kind and leaves the other list as it was |
| Presence.RosterShape | index.html/app.py:258-261 | the online list is all online, the offline list all offline, and together they have one line per user |
| Presence.RosterPartition | index.html/app.py:236-245 | the two groups together are a permutation of the users table, each holding exactly the users of its kind |
| Presence.EntriesFlag | index.html/app.py:241 | a roster line's online flag is its user's presence |
| Presence.IsOnline | index.html/app.py:238 | definition of presence: fewer than 10 seconds since last_active |
| Presence.Entry | index.html/app.py:239-241 | definition of a roster line: display name, icon path, presence flag and unread count of the user |
| Presence.PresenceExamples | index.html/app.py:238 | active 5 s ago is online; 15 s ago, and exactly 10 s ago, offline |
| Tables.FilterEmbeds | index.html/app.py:234-245 | a filtered table keeps its rows in their original relative order: they sit at strictly increasing positions of the source |
| Board.AppendFreshRows | index.html/app.py:100-101 | appending rows numbered on from the largest issued id keeps the notifications in id order and under the new counter |
| Board.NewNotifications | index.html/app.py:89-101 | the rows written are fresh, and they notify t exactly when t is a target |
| Schema.CanDelete | index.html/app.py:189 | definition of the delete permission of lines 189 and 215: the viewer is the author, or the viewer is "admin" |
| Board.FindPostUnique | index.html/app.py:19 | with ids in ascending order the post found by id is the only one with that id |
| Board.CommentDeletable | index.html/app.py:189 | the guard on the row found by id holds exactly when some comment with that id has the viewer as its author or the viewer is admin |
| Board.PostDeletable | index.html/app.py:215 | the delete button acts exactly when a post with that id exists and the viewer is its author or admin |
| Board.Store.constructor | index.html/app.py:18-44 | a new database has empty tables and counters at zero, and satisfies the store invariant |
| Board.Store.SetUser | index.html/app.py:53-61 | the users table becomes the upsert of the profile row; the icon is the derived path only when a file is given, last_active becomes now; nothing else changes |
| Board.Store.UpdateUserActivity | index.html/app.py:63-66 | the users table becomes the touched table; nothing else changes |
| Board.Store.AddPost | index.html/app.py:68-76 | the post is appended with id one above the largest ever issued, so above every existing id; nothing else changes |
| Board.Store.AddComment | index.html/app.py:78-102 | the comment is appended with a fresh id; ok holds exactly when the parent id is 0 or names a comment; when ok, the rows appended notify exactly the targets; when not, none are appended |
| Board.Store.InsertComment | index.html/app.py:84-86 | the comment is appended with id one above the largest ever issued |
| Board.Store.AppendNotifications | index.html/app.py:100-102 | the fresh rows are appended and the counter moves past them; the invariant is kept |
| Board.Store.DeleteComment | index.html/app.py:177-192 | a click on comment x's delete button, when the page shows one, as the page runs it: it raises exactly when a comment x exists and the viewer is its author or admin, and no table changes in any case (the method modifies nothing) |
| Board.Store.DeleteCommentIntended | index.html/app.py:189-192 | a click on comment x's delete button, when the page shows one, with the cursor in place: the delete happens exactly when a comment x exists and the viewer is its author or admin, and then leaves the comment and notification tables of the shallow cascade |
| Board.Store.DeletePost | index.html/app.py:215-219 | the delete happens exactly when the post exists and the viewer is its author or admin, and then removes the post and its comments; the notifications table is unchanged either way |
| Board.Store.MarkRead | index.html/app.py:278 | the notifications table becomes the marked table; nothing else changes |
| Walkthrough.GreetingMentions | index.html/app.py:96 | "@alice hi" mentions alice and nobody else |
| Walkthrough.SingleTarget | index.html/app.py:100-101 | fresh rows that notify exactly one user are one row for that user |
| Walkthrough.ReplyAndMention | index.html/app.py:89-101 | a reply to u1 that mentions only u2, by a third user, writes exactly two rows, for u1 and u2 |
| Walkthrough.GreetingNotifiesAlice | index.html/app.py:89-101 | bob's "@alice hi" writes one unread row, for alice |
| Walkthrough.ReadingClearsBadge | index.html/app.py:239-240 | alice's badge shows 1 before the row is marked read and 0 after |
| Walkthrough.AliceDeletesOwnComment | index.html/app.py:177-192 | alice clicks delete on her own comment: as written the click raises and the comment stays; the intended delete removes it |
| Walkthrough.AliceAndBob | index.html/app.py:78-102 | alice posts, bob comments "@alice hi" at top level: notification 1 is written for alice, her badge goes from 1 to 0 once it is read |

## Left out

- The Streamlit page itself: CSS and HTML, the sidebar and the forms, the `st_autorefresh` timer, the rendering of posts and of the comment tree (index.html/app.py:11, 127-225). These are UI and framework calls.
- The guards the page applies before calling the store (index.html/app.py:148, 152, 164, 189, 215, 268) are not preconditions here, except the delete permission. The store operations accept any strings, as the functions do.
- The page has no comment form; nothing calls `add_comment`. It is modelled as an operation of the store all the same.
- File uploads: writing icons, images and PDFs under `uploads/` (index.html/app.py:55-58, 70-73, 80-83) is file I/O. Post and comment image paths are opaque optional strings chosen by the caller. The stored icon path is derived from the username as `os.path.join` does on POSIX, including a username that starts with `/`.
- `datetime.now()` and its formatting. Time is an integer number of seconds given by the caller. The minute-precision `created_at` text is not stored. A `last_active` value that does not parse is not modelled.
- The SQLite connection, commits, and several sessions writing at once (index.html/app.py:16-17). This is a foreign library and concurrency; the tables are sequences in one object.
- Ids are unbounded integers; the 64-bit limit of AUTOINCREMENT is not modelled.
- The `re.sub` mention highlighting (index.html/app.py:180), the PDF display dispatch, the session-state scroll-to-comment and its script (index.html/app.py:183-187, 280, 288-296). These are presentation.
- The `reactions` table (index.html/app.py:28-32). It is never read or written.
- Notify.NotificationRows: Python does not fix the iteration order of a set, so the order of the rows written is left open. Which target gets which of the consecutive ids is not determined.
- Inbox.UnreadList: the join query has no ORDER BY. The model lists rows in notification id order, one order SQLite may return.
- Board.Store.DeleteComment: the guard accepts a delete of any comment in the table, including comments the page never renders and so never gives a button: one whose post is gone, whose parent is missing or on another post, or that is its own parent. Which comments `render_comments` reaches (index.html/app.py:176-195, 222) is not modelled.
- Board.Store.DeleteCommentIntended: the same guard, with the same gap as `Board.Store.DeleteComment`.
- Presence.BuildRoster: the original calls `datetime.now()` once per user inside the loop (index.html/app.py:238); the model uses one `now` for the whole roster, so a user crossing the 10-second mark while the loop runs is not modelled.
- Board.Store.AddComment: the exception raised for a missing parent is a `false` result. Its propagation to the page is not modelled.

## Findings

| source | as written | input that shows it | evidently intended | confidence | as-written member | corrected member |
|---|---|---|---|---|---|---|
| index.html/app.py:177-192 | the comment loop binds each row to `c`, hiding the cursor, so `c.execute(...)` in the delete handler is called on a tuple and raises `AttributeError`; nothing is deleted | alice clicks delete on her own comment | remove the comment, its direct replies and the notifications about it | high, not executed | Board.Store.DeleteComment, shown by Walkthrough.AliceDeletesOwnComment | Board.Store.DeleteCommentIntended, with Cascade.CommentDeleteEffect |
