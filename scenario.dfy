/**
 * The board used end to end: alice posts, bob mentions her in a top-level
 * comment, and she reads the notification.
 */
module Walkthrough {
  import opened Schema
  import opened MentionScan
  import opened Notify
  import opened Inbox
  import opened Tables
  import opened Cascade
  import opened Board

  /** "@alice hi" mentions alice and no one else. */
  lemma GreetingMentions()
    ensures Mentions("@alice hi") == ["alice"]
  {
    var s := "@alice hi";
    assert s[1..] == "alice hi";
    NameRun();
    assert s[1..6] == "alice" && s[6..] == " hi";
    NoMentionInTail();
  }

  /** The word run at the front of "alice hi" is the name. */
  lemma NameRun()
    ensures RunLength("alice hi") == 5
  {
    var r := "alice hi";
    assert !IsWordChar(r[5]) && forall k :: 0 <= k < 5 ==> IsWordChar(r[k]);
  }

  lemma NoMentionInTail()
    ensures Mentions(" hi") == []
  {
    assert " hi"[1..] == "hi" && "hi"[1..] == "i";
  }

  /**
   * Fresh rows that notify exactly one user are a single row for that
   * user, numbered firstId.
   */
  lemma SingleTarget(rows: seq<Notification>, commentId: int, firstId: int, who: string)
    requires FreshRows(rows, commentId, firstId)
    requires forall t :: Notifies(rows, t) <==> t == who
    ensures rows == [Notification(firstId, who, commentId, false)]
  {
    assert Notifies(rows, who);
    assert Notifies(rows, rows[0].targetUser);
    if |rows| > 1 {
      assert Notifies(rows, rows[1].targetUser);
      assert false;
    }
  }

  /**
   * A reply to u1's comment that mentions only u2, by a third user, writes
   * exactly two rows: one for u1 and one for u2.
   */
  lemma ReplyAndMention(rows: seq<Notification>, commentId: int, firstId: int, mentions: seq<string>,
                        u1: string, u2: string, commenter: string)
    requires FreshRows(rows, commentId, firstId)
    requires forall t :: Notifies(rows, t) <==> IsTarget(t, Some(u1), mentions, commenter)
    requires u2 in mentions && forall k :: 0 <= k < |mentions| ==> mentions[k] == u2
    requires u1 != u2 && u1 != commenter && u2 != commenter
    ensures |rows| == 2
    ensures {rows[0].targetUser, rows[1].targetUser} == {u1, u2}
  {
    assert Notifies(rows, u1) && Notifies(rows, u2);
    forall k | 0 <= k < |rows| ensures rows[k].targetUser == u1 || rows[k].targetUser == u2 {
      assert Notifies(rows, rows[k].targetUser);
    }
    if |rows| > 2 {
      TwoNamesThreeRows(rows[0].targetUser, rows[1].targetUser, rows[2].targetUser, u1, u2);
      assert false;
    }
    var i :| 0 <= i < |rows| && rows[i].targetUser == u1;
    var j :| 0 <= j < |rows| && rows[j].targetUser == u2;
  }

  /** Three names drawn from two cannot all differ. */
  lemma TwoNamesThreeRows(a: string, b: string, c: string, u1: string, u2: string)
    requires (a == u1 || a == u2) && (b == u1 || b == u2) && (c == u1 || c == u2)
    ensures a == b || a == c || b == c
  {
  }

  /** The rows written for bob's "@alice hi" are one unread notification for alice. */
  lemma GreetingNotifiesAlice(added: seq<Notification>, commentId: int, firstId: int)
    requires FreshRows(added, commentId, firstId)
    requires forall t :: Notifies(added, t) <==> IsTarget(t, None, Mentions("@alice hi"), "bob")
    ensures added == [Notification(firstId, "alice", commentId, false)]
  {
    GreetingMentions();
    assert forall t :: IsTarget(t, None, ["alice"], "bob") <==> t == "alice";
    SingleTarget(added, commentId, firstId, "alice");
  }

  /** alice's badge shows the one notification, and reading it clears the badge. */
  lemma ReadingClearsBadge(commentId: int)
    ensures UnreadCount([Notification(1, "alice", commentId, false)], "alice") == 1
    ensures UnreadCount(MarkReadRows([Notification(1, "alice", commentId, false)], 1), "alice") == 0
  {
    var ns := [Notification(1, "alice", commentId, false)];
    assert HasUnread(ns, 1, "alice") by {
      assert ns[0] in ns;
    }
    MarkReadClearsOne(ns, 1, "alice");
  }

  /**
   * alice creates post ("Hello", "World"); bob comments "@alice hi" on it
   * at top level. That writes one notification, for alice, which puts one
   * on her unread badge; marking it read clears the badge.
   */
  method AliceAndBob() returns (notificationId: int, unreadBefore: nat, unreadAfter: nat)
    ensures notificationId == 1
    ensures unreadBefore == 1 && unreadAfter == 0
  {
    var db := new Store();
    var postId := db.AddPost("Hello", "World", "alice", DefaultCategory, None);
    var commentId, ok, added := db.AddComment(postId, "bob", "@alice hi", 0, None);
    GreetingNotifiesAlice(added, commentId, 1);
    ReadingClearsBadge(commentId);
    notificationId := added[0].id;
    unreadBefore := UnreadCount(db.notifications, "alice");
    db.MarkRead(notificationId);
    unreadAfter := UnreadCount(db.notifications, "alice");
  }

  /** Deleting the only comment of a table, which has no replies, empties the table. */
  lemma OnlyCommentGoes(c: Comment)
    ensures DeleteCommentRows([c], c.id) == []
  {
  }

  /**
   * alice deletes her own top-level comment. As the page runs it the click
   * raises and the comment stays; the intended delete removes it.
   */
  method AliceDeletesOwnComment() returns (raised: bool, leftAsWritten: nat, deleted: bool, leftIntended: nat)
    ensures raised && leftAsWritten == 1
    ensures deleted && leftIntended == 0
  {
    var db := new Store();
    var postId := db.AddPost("Hello", "World", "alice", DefaultCategory, None);
    var commentId, ok, added := db.AddComment(postId, "alice", "first", 0, None);
    var mine := db.comments[0];
    assert mine in db.comments;
    OnlyCommentGoes(mine);
    raised := db.DeleteComment(commentId, "alice");
    leftAsWritten := |db.comments|;
    deleted := db.DeleteCommentIntended(commentId, "alice");
    leftIntended := |db.comments|;
  }
}
