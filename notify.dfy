/**
 * The notification engine run after a comment is stored
 * (index.html/app.py:89-102): who is notified, and the rows inserted for them.
 */
module Notify {
  import opened Schema

  /**
   * t is to be notified of a comment by commenter: t is the author of the
   * comment replied to, or is mentioned, and t is not the commenter
   * (compared case-sensitively).
   */
  predicate IsTarget(t: string, parentAuthor: Option<string>, mentions: seq<string>, commenter: string) {
    t != commenter && (parentAuthor == Some(t) || t in mentions)
  }

  /**
   * The `targets` set of add_comment: parentAuthor is the author looked up
   * for a reply (None for a top-level comment), mentions the extracted names
   * in order of appearance.
   */
  method CollectTargets(parentAuthor: Option<string>, mentions: seq<string>, commenter: string)
    returns (targets: set<string>)
    ensures forall t :: t in targets <==> IsTarget(t, parentAuthor, mentions, commenter)
  {
    targets := {};
    if parentAuthor.Some? && parentAuthor.value != commenter {
      targets := targets + {parentAuthor.value};
    }
    for i := 0 to |mentions|
      invariant forall t :: t in targets <==> IsTarget(t, parentAuthor, mentions[..i], commenter)
    {
      if mentions[i] != commenter {
        targets := targets + {mentions[i]};
      }
      assert mentions[..i + 1] == mentions[..i] + [mentions[i]];
    }
    assert mentions[..|mentions|] == mentions;
  }

  /** Some row of rows notifies t. */
  predicate Notifies(rows: seq<Notification>, t: string) {
    exists k :: 0 <= k < |rows| && rows[k].targetUser == t
  }

  /**
   * rows are fresh notifications about comment commentId: unread, with
   * consecutive ids from firstId, and no user notified twice.
   */
  predicate FreshRows(rows: seq<Notification>, commentId: int, firstId: int) {
    && (forall k :: 0 <= k < |rows| ==>
          rows[k] == Notification(firstId + k, rows[k].targetUser, commentId, false))
    && (forall j, k :: 0 <= j < k < |rows| ==> rows[j].targetUser != rows[k].targetUser)
  }

  /**
   * The INSERT loop over `targets`: one unread row per target, pointing at
   * commentId, with AUTOINCREMENT ids from firstId. A Python set has no
   * defined iteration order, so the order of the rows is left open.
   */
  method NotificationRows(targets: set<string>, commentId: int, firstId: int)
    returns (rows: seq<Notification>)
    ensures |rows| == |targets|
    ensures FreshRows(rows, commentId, firstId)
    ensures forall t :: Notifies(rows, t) <==> t in targets
  {
    rows := [];
    var rest := targets;
    while rest != {}
      invariant rest <= targets
      invariant |rows| + |rest| == |targets|
      invariant FreshRows(rows, commentId, firstId)
      invariant forall k :: 0 <= k < |rows| ==> rows[k].targetUser in targets - rest
      invariant forall t :: t in targets - rest ==> Notifies(rows, t)
      decreases |rest|
    {
      var t :| t in rest;
      ghost var before := rows;
      rows := rows + [Notification(firstId + |rows|, t, commentId, false)];
      rest := rest - {t};
      forall u | Notifies(before, u) ensures Notifies(rows, u) {
        var k :| 0 <= k < |before| && before[k].targetUser == u;
        assert rows[k] == before[k];
      }
      assert rows[|rows| - 1].targetUser == t;
    }
  }
}
