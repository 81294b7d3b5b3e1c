/**
 * What a user sees of the notifications table: the unread badge on the
 * roster (index.html/app.py:239-240), the unread list joined with comments
 * and posts (index.html/app.py:268-274), and mark-read (index.html/app.py:278).
 */
module Inbox {
  import opened Tables
  import opened Schema
  import opened Queries
  import opened Cascade

  /** SELECT COUNT(*) FROM notifications WHERE target_user=? AND is_read=0 */
  function UnreadCount(notifications: seq<Notification>, user: string): nat {
    if |notifications| == 0 then 0
    else
      (if notifications[0].targetUser == user && !notifications[0].isRead then 1 else 0)
      + UnreadCount(notifications[1..], user)
  }

  /** One row of the unread list: n.id, p.title, c.id, c.post_id, c.content. */
  datatype UnreadItem = UnreadItem(notificationId: int, postTitle: string, commentId: int,
                                   postId: int, commentContent: string)

  /**
   * The join of index.html/app.py:269-273 for one notification row: empty
   * unless the row is the user's, unread, and both its comment and that
   * comment's post still exist.
   */
  function JoinRow(n: Notification, comments: seq<Comment>, posts: seq<Post>, user: string): seq<UnreadItem> {
    if n.targetUser != user || n.isRead then []
    else match FindComment(comments, n.commentId)
      case None => []
      case Some(c) =>
        match FindPost(posts, c.postId)
        case None => []
        case Some(p) => [UnreadItem(n.id, p.title, c.id, c.postId, c.content)]
  }

  /** The unread list, in notification order. */
  function UnreadList(notifications: seq<Notification>, comments: seq<Comment>, posts: seq<Post>,
                      user: string): seq<UnreadItem>
  {
    if |notifications| == 0 then []
    else JoinRow(notifications[0], comments, posts, user) + UnreadList(notifications[1..], comments, posts, user)
  }

  /** The inner joins can only drop rows: the list is never longer than the badge count. */
  lemma {:induction false} ListWithinCount(notifications: seq<Notification>, comments: seq<Comment>,
                                           posts: seq<Post>, user: string)
    ensures |UnreadList(notifications, comments, posts, user)| <= UnreadCount(notifications, user)
  {
    if |notifications| > 0 {
      ListWithinCount(notifications[1..], comments, posts, user);
    }
  }

  /**
   * An unread notification whose comment is gone still counts in the badge
   * but has no row in the list, so the list is strictly shorter.
   */
  lemma {:induction false} OrphanCountedNotListed(notifications: seq<Notification>, comments: seq<Comment>,
                                                  posts: seq<Post>, user: string, n: Notification)
    requires n in notifications && n.targetUser == user && !n.isRead
    requires FindComment(comments, n.commentId) == None
    ensures |UnreadList(notifications, comments, posts, user)| < UnreadCount(notifications, user)
  {
    if notifications[0] == n {
      ListWithinCount(notifications[1..], comments, posts, user);
    } else {
      assert n in notifications[1..];
      OrphanCountedNotListed(notifications[1..], comments, posts, user, n);
    }
  }

  /**
   * After post p is deleted, an unread notification about one of its
   * comments keeps counting in its target's badge but is missing from the
   * target's list.
   */
  lemma PostDeleteLeavesHiddenUnread(posts: seq<Post>, comments: seq<Comment>,
                                     notifications: seq<Notification>, p: int, n: Notification)
    requires Ascending(posts, PostId) && Ascending(comments, CommentId)
    requires n in notifications && !n.isRead
    requires exists c :: c in comments && c.id == n.commentId && c.postId == p
    ensures var left := DeleteCommentsOfPost(comments, p);
            var after := DeleteNotificationsIn(notifications, CommentIdsOfPost(left, p));
            && UnreadCount(after, n.targetUser) == UnreadCount(notifications, n.targetUser)
            && |UnreadList(after, left, DeletePostRow(posts, p), n.targetUser)| < UnreadCount(after, n.targetUser)
  {
    PostDeleteEffect(posts, comments, notifications, p);
    var c :| c in comments && c.id == n.commentId && c.postId == p;
    DeletedPostHidesComment(comments, p, c);
    OrphanCountedNotListed(notifications, DeleteCommentsOfPost(comments, p), DeletePostRow(posts, p),
                           n.targetUser, n);
  }

  /** Once post p's comments are deleted, no comment is found under the id of one of them. */
  lemma DeletedPostHidesComment(comments: seq<Comment>, p: int, c: Comment)
    requires Ascending(comments, CommentId)
    requires c in comments && c.postId == p
    ensures FindComment(DeleteCommentsOfPost(comments, p), c.id) == None
  {
    var left := DeleteCommentsOfPost(comments, p);
    forall d | d in left ensures d.id != c.id {
      var i :| 0 <= i < |comments| && comments[i] == d;
      var j :| 0 <= j < |comments| && comments[j] == c;
    }
  }

  /** UPDATE notifications SET is_read=1 WHERE id=? */
  function MarkReadRows(notifications: seq<Notification>, id: int): (r: seq<Notification>)
    ensures |r| == |notifications|
    ensures forall k :: 0 <= k < |r| ==>
              && r[k].id == notifications[k].id
              && r[k].targetUser == notifications[k].targetUser
              && r[k].commentId == notifications[k].commentId
              && r[k].isRead == (notifications[k].isRead || notifications[k].id == id)
  {
    if |notifications| == 0 then []
    else
      [if notifications[0].id == id then notifications[0].(isRead := true) else notifications[0]]
      + MarkReadRows(notifications[1..], id)
  }

  /** user has an unread notification with this id. */
  predicate HasUnread(notifications: seq<Notification>, id: int, user: string) {
    exists n :: n in notifications && n.id == id && n.targetUser == user && !n.isRead
  }

  /**
   * Marking notification id read lowers its target's badge by one and
   * leaves every other badge as it was; with no such unread row nothing
   * changes.
   */
  lemma {:induction false} MarkReadClearsOne(notifications: seq<Notification>, id: int, user: string)
    requires Ascending(notifications, NotificationId)
    ensures UnreadCount(MarkReadRows(notifications, id), user)
            == UnreadCount(notifications, user) - (if HasUnread(notifications, id, user) then 1 else 0)
  {
    if |notifications| > 0 {
      var rest := notifications[1..];
      assert Ascending(rest, NotificationId) by {
        forall i, j | 0 <= i < j < |rest| ensures NotificationId(rest[i]) < NotificationId(rest[j]) {
          assert rest[i] == notifications[i + 1] && rest[j] == notifications[j + 1];
        }
      }
      MarkReadClearsOne(rest, id, user);
      if notifications[0].id == id {
        forall n | n in rest ensures n.id != id {
          var k :| 0 <= k < |rest| && rest[k] == n;
          assert NotificationId(notifications[0]) < NotificationId(notifications[k + 1]);
        }
        assert !HasUnread(rest, id, user);
      } else {
        assert HasUnread(notifications, id, user) <==> HasUnread(rest, id, user);
      }
    }
  }
}
