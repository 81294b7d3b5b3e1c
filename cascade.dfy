/**
 * The DELETE statements behind the two delete buttons, statement by
 * statement: a comment delete (index.html/app.py:191-192) reaches one level
 * of replies, and a post delete (index.html/app.py:217-219) empties the
 * comments before it asks which notifications belonged to them. The page
 * never reaches the comment statements (see Board.Store.DeleteComment); they
 * are what its corrected delete performs.
 */
module Cascade {
  import opened Tables
  import opened Schema
  import opened Queries

  /** Keeps the comments that are neither x nor a direct reply to x. */
  function OutsideComment(x: int): Comment -> bool {
    (c: Comment) => c.id != x && c.parentId != x
  }

  /** Keeps the notifications that do not point at comment x. */
  function NotAbout(x: int): Notification -> bool {
    (n: Notification) => n.commentId != x
  }

  /** Keeps the posts other than post p. */
  function OtherPost(p: int): Post -> bool {
    (q: Post) => q.id != p
  }

  /** Keeps the comments that belong to a post other than p. */
  function OnOtherPost(p: int): Comment -> bool {
    (c: Comment) => c.postId != p
  }

  /** Keeps the notifications whose comment id is not in ids. */
  function NotAboutAny(ids: set<int>): Notification -> bool {
    (n: Notification) => n.commentId !in ids
  }

  /** DELETE FROM comments WHERE id=? OR parent_id=? */
  function DeleteCommentRows(comments: seq<Comment>, x: int): seq<Comment> {
    Filter(comments, OutsideComment(x))
  }

  /** DELETE FROM notifications WHERE comment_id=? */
  function DeleteNotificationsOf(notifications: seq<Notification>, x: int): seq<Notification> {
    Filter(notifications, NotAbout(x))
  }

  /** DELETE FROM posts WHERE id=? */
  function DeletePostRow(posts: seq<Post>, p: int): seq<Post> {
    Filter(posts, OtherPost(p))
  }

  /** DELETE FROM comments WHERE post_id=? */
  function DeleteCommentsOfPost(comments: seq<Comment>, p: int): seq<Comment> {
    Filter(comments, OnOtherPost(p))
  }

  /** SELECT id FROM comments WHERE post_id=? */
  function CommentIdsOfPost(comments: seq<Comment>, p: int): set<int> {
    set c | c in comments && c.postId == p :: c.id
  }

  /** DELETE FROM notifications WHERE comment_id IN (ids) */
  function DeleteNotificationsIn(notifications: seq<Notification>, ids: set<int>): seq<Notification> {
    Filter(notifications, NotAboutAny(ids))
  }

  /**
   * Deleting comment x leaves exactly the comments that are neither x nor a
   * direct reply to x, in their order, and exactly the notifications that do
   * not point at x.
   */
  lemma CommentDeleteEffect(comments: seq<Comment>, notifications: seq<Notification>, x: int)
    requires Ascending(comments, CommentId) && Ascending(notifications, NotificationId)
    ensures forall c :: c in DeleteCommentRows(comments, x) <==> c in comments && c.id != x && c.parentId != x
    ensures Ascending(DeleteCommentRows(comments, x), CommentId)
    ensures forall n :: n in DeleteNotificationsOf(notifications, x) <==> n in notifications && n.commentId != x
    ensures Ascending(DeleteNotificationsOf(notifications, x), NotificationId)
  {
    FilterAscending(comments, OutsideComment(x), CommentId);
    FilterAscending(notifications, NotAbout(x), NotificationId);
  }

  /**
   * The cascade is one level deep: a reply g to a direct reply of x survives
   * the delete, and the comment its parentId names is gone.
   */
  lemma CommentDeleteIsShallow(comments: seq<Comment>, x: int, child: Comment, g: Comment)
    requires Ascending(comments, CommentId)
    requires child in comments && child.parentId == x && child.id != x
    requires g in comments && g.parentId == child.id && g.id != x
    ensures g in DeleteCommentRows(comments, x)
    ensures FindComment(DeleteCommentRows(comments, x), g.parentId) == None
  {
    var r := DeleteCommentRows(comments, x);
    forall c | c in r ensures c.id != child.id {
      var i :| 0 <= i < |comments| && comments[i] == c;
      var j :| 0 <= j < |comments| && comments[j] == child;
    }
  }

  /**
   * Notifications about the removed replies are not deleted: only those
   * pointing at x itself go.
   */
  lemma CommentDeleteOrphansReplyNotifications(comments: seq<Comment>, notifications: seq<Notification>,
                                               x: int, child: Comment, n: Notification)
    requires child in comments && child.parentId == x && child.id != x
    requires n in notifications && n.commentId == child.id
    ensures child !in DeleteCommentRows(comments, x)
    ensures n in DeleteNotificationsOf(notifications, x)
  {
  }

  /**
   * Deleting post p removes the post and every comment on p but no
   * notification: the subquery runs after the comments are gone and finds
   * no ids.
   */
  lemma {:induction false} PostDeleteEffect(posts: seq<Post>, comments: seq<Comment>,
                                            notifications: seq<Notification>, p: int)
    requires Ascending(posts, PostId) && Ascending(comments, CommentId)
    ensures forall q :: q in DeletePostRow(posts, p) <==> q in posts && q.id != p
    ensures Ascending(DeletePostRow(posts, p), PostId)
    ensures forall c :: c in DeleteCommentsOfPost(comments, p) <==> c in comments && c.postId != p
    ensures Ascending(DeleteCommentsOfPost(comments, p), CommentId)
    ensures DeleteNotificationsIn(notifications, CommentIdsOfPost(DeleteCommentsOfPost(comments, p), p))
            == notifications
  {
    FilterAscending(posts, OtherPost(p), PostId);
    FilterAscending(comments, OnOtherPost(p), CommentId);
    var left := DeleteCommentsOfPost(comments, p);
    assert CommentIdsOfPost(left, p) == {};
    FilterKeepsAll(notifications, NotAboutAny({}));
  }
}
