/**
 * The board's database as one object: the four tables the page uses and the
 * AUTOINCREMENT counters, with the mutators of index.html/app.py. Each
 * mutator states the whole new state; the modules it imports say what those
 * states mean.
 */
module Board {
  import opened Tables
  import opened Schema
  import opened MentionScan
  import opened Notify
  import opened Queries
  import opened Cascade
  import opened Inbox
  import opened Users

  /**
   * Appending fresh notification rows, numbered on from the largest id ever
   * issued, keeps the table in id order and under the new counter.
   */
  lemma AppendFreshRows(notifications: seq<Notification>, rows: seq<Notification>, commentId: int, last: int)
    requires Ascending(notifications, NotificationId)
    requires forall n :: n in notifications ==> n.id <= last
    requires FreshRows(rows, commentId, last + 1)
    ensures Ascending(notifications + rows, NotificationId)
    ensures forall n :: n in notifications + rows ==> n.id <= last + |rows|
  {
    var all := notifications + rows;
    forall i, j | 0 <= i < j < |all| ensures NotificationId(all[i]) < NotificationId(all[j]) {
      if j < |notifications| {
        assert all[i] == notifications[i] && all[j] == notifications[j];
      } else if i < |notifications| {
        assert all[i] == notifications[i] && notifications[i] in notifications;
        assert all[j] == rows[j - |notifications|];
      } else {
        assert all[i] == rows[i - |notifications|] && all[j] == rows[j - |notifications|];
      }
    }
    forall n | n in all ensures n.id <= last + |rows| {
      var k :| 0 <= k < |all| && all[k] == n;
      if k >= |notifications| {
        assert rows[k - |notifications|] == n;
      }
    }
  }

  /**
   * The second half of add_comment: one unread notification about comment
   * commentId for every target, numbered on from firstId.
   */
  method NewNotifications(commentId: int, parentAuthor: Option<string>, content: string, commenter: string,
                          firstId: int) returns (rows: seq<Notification>)
    ensures FreshRows(rows, commentId, firstId)
    ensures forall t :: Notifies(rows, t) <==> IsTarget(t, parentAuthor, Mentions(content), commenter)
  {
    var targets := CollectTargets(parentAuthor, Mentions(content), commenter);
    rows := NotificationRows(targets, commentId, firstId);
  }

  /** With ids in ascending order, a row found by id is the only row with that id. */
  lemma FindPostUnique(posts: seq<Post>, p: Post)
    requires Ascending(posts, PostId)
    requires p in posts
    ensures FindPost(posts, p.id) == Some(p)
  {
    var f := FindPost(posts, p.id);
    var i :| 0 <= i < |posts| && posts[i] == p;
    var j :| 0 <= j < |posts| && posts[j] == f.value;
    assert i == j;
  }

  /** The row a comment delete button acts on is the only row with that id. */
  lemma CommentDeletable(comments: seq<Comment>, x: int, actor: string)
    requires Ascending(comments, CommentId)
    ensures (FindComment(comments, x).Some? && CanDelete(FindComment(comments, x).value.user, actor))
            <==> exists c :: c in comments && c.id == x && CanDelete(c.user, actor)
  {
    if c :| c in comments && c.id == x {
      FindCommentUnique(comments, c);
    }
  }

  lemma PostDeletable(posts: seq<Post>, p: int, actor: string)
    requires Ascending(posts, PostId)
    ensures (FindPost(posts, p).Some? && CanDelete(FindPost(posts, p).value.user, actor))
            <==> exists q :: q in posts && q.id == p && CanDelete(q.user, actor)
  {
    if q :| q in posts && q.id == p {
      FindPostUnique(posts, q);
    }
  }

  class Store {
    var posts: seq<Post>
    var comments: seq<Comment>
    var users: seq<User>
    var notifications: seq<Notification>
    /** sqlite_sequence: the largest id each AUTOINCREMENT table has ever issued. */
    var lastPostId: int
    var lastCommentId: int
    var lastNotificationId: int

    /**
     * Rows are stored in id order, every id is at most the largest one ever
     * issued, and usernames are unique.
     */
    ghost predicate Valid()
      reads this
    {
      && 0 <= lastPostId && 0 <= lastCommentId && 0 <= lastNotificationId
      && Ascending(posts, PostId) && Ascending(comments, CommentId)
      && Ascending(notifications, NotificationId)
      && (forall p :: p in posts ==> 0 < p.id <= lastPostId)
      && (forall c :: c in comments ==> 0 < c.id <= lastCommentId)
      && (forall n :: n in notifications ==> 0 < n.id <= lastNotificationId)
      && UniqueUsernames(users)
    }

    /** The database as the CREATE TABLE IF NOT EXISTS statements leave a new file. */
    constructor ()
      ensures Valid()
      ensures posts == [] && comments == [] && users == [] && notifications == []
      ensures lastPostId == 0 && lastCommentId == 0 && lastNotificationId == 0
    {
      posts, comments, users, notifications := [], [], [], [];
      lastPostId, lastCommentId, lastNotificationId := 0, 0, 0;
    }

    /**
     * set_user: the profile row replaces any row for the username, icon
     * included (no file means no icon), and last_active becomes now.
     */
    method SetUser(username: string, displayName: string, hasIcon: bool, now: int)
      requires Valid()
      modifies this
      ensures Valid()
      ensures users == UpsertUser(old(users), ProfileRow(username, displayName, hasIcon, now))
      ensures posts == old(posts) && comments == old(comments) && notifications == old(notifications)
      ensures lastPostId == old(lastPostId) && lastCommentId == old(lastCommentId)
      ensures lastNotificationId == old(lastNotificationId)
    {
      users := UpsertUser(users, ProfileRow(username, displayName, hasIcon, now));
    }

    /** update_user_activity: last_active of an existing row becomes now; nothing is inserted. */
    method UpdateUserActivity(username: string, now: int)
      requires Valid()
      modifies this
      ensures Valid()
      ensures users == TouchUser(old(users), username, now)
      ensures posts == old(posts) && comments == old(comments) && notifications == old(notifications)
      ensures lastPostId == old(lastPostId) && lastCommentId == old(lastCommentId)
      ensures lastNotificationId == old(lastNotificationId)
    {
      TouchKeepsUnique(users, username, now);
      users := TouchUser(users, username, now);
    }

    /** add_post: a new row with the next AUTOINCREMENT id. */
    method AddPost(title: string, content: string, user: string, category: string,
                   imagePath: Option<string>) returns (id: int)
      requires Valid()
      modifies this
      ensures Valid()
      ensures id == old(lastPostId) + 1 && lastPostId == id
      ensures forall p :: p in old(posts) ==> p.id < id
      ensures posts == old(posts) + [Post(id, title, content, user, category, imagePath)]
      ensures comments == old(comments) && users == old(users) && notifications == old(notifications)
      ensures lastCommentId == old(lastCommentId) && lastNotificationId == old(lastNotificationId)
    {
      id := lastPostId + 1;
      var row := Post(id, title, content, user, category, imagePath);
      AppendAscending(posts, row, PostId);
      posts := posts + [row];
      lastPostId := id;
    }

    /**
     * add_comment: the comment is stored first, then the author of the
     * comment replied to is looked up. If that comment does not exist the
     * original raises and no notification is written (ok is false), but the
     * comment stays. Otherwise one unread notification per target, pointing
     * at the new comment, is appended; added holds the rows written.
     */
    method AddComment(postId: int, user: string, content: string, parentId: int,
                      imagePath: Option<string>) returns (id: int, ok: bool, added: seq<Notification>)
      requires Valid()
      modifies this
      ensures Valid()
      ensures id == old(lastCommentId) + 1 && lastCommentId == id
      ensures forall c :: c in old(comments) ==> c.id < id
      ensures comments == old(comments) + [Comment(id, postId, parentId, user, content, imagePath)]
      ensures posts == old(posts) && users == old(users) && lastPostId == old(lastPostId)
      ensures ok <==> parentId == 0 || ParentAuthor(comments, parentId).Some?
      ensures notifications == old(notifications) + added
      ensures lastNotificationId == old(lastNotificationId) + |added|
      ensures FreshRows(added, id, old(lastNotificationId) + 1)
      ensures !ok ==> added == []
      ensures ok ==> forall t :: Notifies(added, t) <==>
                IsTarget(t, if parentId == 0 then None else ParentAuthor(comments, parentId),
                         Mentions(content), user)
    {
      id := InsertComment(postId, user, content, parentId, imagePath);
      var parentAuthor: Option<string> := None;
      if parentId != 0 {
        parentAuthor := ParentAuthor(comments, parentId);
        if parentAuthor.None? {
          ok, added := false, [];
          return;
        }
      }
      added := NewNotifications(id, parentAuthor, content, user, lastNotificationId + 1);
      AppendNotifications(added, id);
      ok := true;
    }

    /** The INSERT INTO comments of add_comment, with the next AUTOINCREMENT id. */
    method InsertComment(postId: int, user: string, content: string, parentId: int,
                         imagePath: Option<string>) returns (id: int)
      requires Valid()
      modifies this
      ensures Valid()
      ensures id == old(lastCommentId) + 1 && lastCommentId == id
      ensures forall c :: c in old(comments) ==> c.id < id
      ensures comments == old(comments) + [Comment(id, postId, parentId, user, content, imagePath)]
      ensures posts == old(posts) && users == old(users) && notifications == old(notifications)
      ensures lastPostId == old(lastPostId) && lastNotificationId == old(lastNotificationId)
    {
      id := lastCommentId + 1;
      var row := Comment(id, postId, parentId, user, content, imagePath);
      AppendAscending(comments, row, CommentId);
      comments := comments + [row];
      lastCommentId := id;
    }

    /** The INSERT INTO notifications loop of add_comment: rows are numbered on from the counter. */
    method AppendNotifications(rows: seq<Notification>, commentId: int)
      requires Valid()
      requires FreshRows(rows, commentId, lastNotificationId + 1)
      modifies this
      ensures Valid()
      ensures notifications == old(notifications) + rows
      ensures lastNotificationId == old(lastNotificationId) + |rows|
      ensures posts == old(posts) && comments == old(comments) && users == old(users)
      ensures lastPostId == old(lastPostId) && lastCommentId == old(lastCommentId)
    {
      AppendFreshRows(notifications, rows, commentId, lastNotificationId);
      notifications := notifications + rows;
      lastNotificationId := lastNotificationId + |rows|;
    }

    /**
     * A click on comment x's delete button, when the page shows one (to the
     * author and to the admin), as the page runs it. Inside render_comments
     * the loop variable of line 177 is also called c, so c.execute is looked
     * up on the row tuple and raises before any DELETE runs: a click raises
     * and changes no table. Whether the page renders comment x at all is not
     * part of the guard.
     */
    method DeleteComment(x: int, actor: string) returns (raised: bool)
      requires Valid()
      ensures raised <==> exists c :: c in comments && c.id == x && CanDelete(c.user, actor)
    {
      var target := FindComment(comments, x);
      raised := target.Some? && CanDelete(target.value.user, actor);
      CommentDeletable(comments, x, actor);
    }

    /**
     * The comment delete a click on comment x's button, when the page shows
     * one, evidently means to perform, with the cursor in place of the
     * shadowed name: comment x and its direct replies go, and so do the
     * notifications pointing at x.
     */
    method DeleteCommentIntended(x: int, actor: string) returns (deleted: bool)
      requires Valid()
      modifies this
      ensures Valid()
      ensures deleted <==> exists c :: c in old(comments) && c.id == x && CanDelete(c.user, actor)
      ensures comments == if deleted then DeleteCommentRows(old(comments), x) else old(comments)
      ensures notifications ==
                if deleted then DeleteNotificationsOf(old(notifications), x) else old(notifications)
      ensures posts == old(posts) && users == old(users)
      ensures lastPostId == old(lastPostId) && lastCommentId == old(lastCommentId)
      ensures lastNotificationId == old(lastNotificationId)
    {
      var target := FindComment(comments, x);
      deleted := target.Some? && CanDelete(target.value.user, actor);
      CommentDeletable(comments, x, actor);
      CommentDeleteEffect(comments, notifications, x);
      if deleted {
        comments := DeleteCommentRows(comments, x);
        notifications := DeleteNotificationsOf(notifications, x);
      }
    }

    /**
     * The post delete button (shown to the author and to the admin): the post
     * and all its comments go. The notification delete runs its subquery on
     * the already emptied comments, so the notifications table is unchanged.
     */
    method DeletePost(p: int, actor: string) returns (deleted: bool)
      requires Valid()
      modifies this
      ensures Valid()
      ensures deleted <==> exists q :: q in old(posts) && q.id == p && CanDelete(q.user, actor)
      ensures posts == if deleted then DeletePostRow(old(posts), p) else old(posts)
      ensures comments == if deleted then DeleteCommentsOfPost(old(comments), p) else old(comments)
      ensures notifications == old(notifications)
      ensures users == old(users)
      ensures lastPostId == old(lastPostId) && lastCommentId == old(lastCommentId)
      ensures lastNotificationId == old(lastNotificationId)
    {
      var target := FindPost(posts, p);
      deleted := target.Some? && CanDelete(target.value.user, actor);
      PostDeletable(posts, p, actor);
      PostDeleteEffect(posts, comments, notifications, p);
      if deleted {
        posts := DeletePostRow(posts, p);
        comments := DeleteCommentsOfPost(comments, p);
        notifications := DeleteNotificationsIn(notifications, CommentIdsOfPost(comments, p));
      }
    }

    /** Clicking an unread notification: its is_read becomes 1. */
    method MarkRead(notificationId: int)
      requires Valid()
      modifies this
      ensures Valid()
      ensures notifications == MarkReadRows(old(notifications), notificationId)
      ensures posts == old(posts) && comments == old(comments) && users == old(users)
      ensures lastPostId == old(lastPostId) && lastCommentId == old(lastCommentId)
      ensures lastNotificationId == old(lastNotificationId)
    {
      var next := MarkReadRows(notifications, notificationId);
      assert Ascending(next, NotificationId);
      forall n | n in next ensures 0 < n.id <= lastNotificationId {
        var k :| 0 <= k < |next| && next[k] == n;
        assert notifications[k] in notifications;
      }
      notifications := next;
    }
  }
}
