/**
 * Presence and the team roster (index.html/app.py:231-261). Times are whole
 * seconds: last_active is stored to the second, so with now rounded down to
 * the second the strict 10-second test gives the same answer as the
 * original's sub-second clock. The original reads the clock once per user
 * inside the roster loop (line 238); the model classifies every user against
 * one now.
 */
module Presence {
  import opened Tables
  import opened Schema
  import opened Inbox

  /** timedelta(seconds=10) */
  const OnlineWindow: int := 10

  /** A user is online while less than ten seconds have passed since last activity. */
  predicate IsOnline(now: int, lastActive: int) {
    now - lastActive < OnlineWindow
  }

  /** Keeps the users online at now. */
  function OnlineAt(now: int): User -> bool {
    (u: User) => IsOnline(now, u.lastActive)
  }

  /** Keeps the users offline at now. */
  function OfflineAt(now: int): User -> bool {
    (u: User) => !IsOnline(now, u.lastActive)
  }

  function OnlineUsers(users: seq<User>, now: int): seq<User> {
    Filter(users, OnlineAt(now))
  }

  function OfflineUsers(users: seq<User>, now: int): seq<User> {
    Filter(users, OfflineAt(now))
  }

  /** The `info` tuple of one roster line: display name, icon, online flag, unread badge. */
  datatype RosterEntry = RosterEntry(displayName: string, iconPath: Option<string>, online: bool, unread: nat)

  function Entry(u: User, notifications: seq<Notification>, now: int): RosterEntry {
    RosterEntry(u.displayName, u.iconPath, IsOnline(now, u.lastActive), UnreadCount(notifications, u.username))
  }

  function Entries(users: seq<User>, notifications: seq<Notification>, now: int): seq<RosterEntry> {
    seq(|users|, i requires 0 <= i < |users| => Entry(users[i], notifications, now))
  }

  /**
   * The roster loop: users are read in table order and each one's line is
   * appended to the online or the offline list. The page shows the online
   * list first, then the offline list.
   */
  method BuildRoster(users: seq<User>, notifications: seq<Notification>, now: int)
    returns (online: seq<RosterEntry>, offline: seq<RosterEntry>)
    ensures online == Entries(OnlineUsers(users, now), notifications, now)
    ensures offline == Entries(OfflineUsers(users, now), notifications, now)
    ensures forall k :: 0 <= k < |online| ==> online[k].online
    ensures forall k :: 0 <= k < |offline| ==> !offline[k].online
    ensures |online| + |offline| == |users|
  {
    online, offline := [], [];
    for i := 0 to |users|
      invariant online == Entries(OnlineUsers(users[..i], now), notifications, now)
      invariant offline == Entries(OfflineUsers(users[..i], now), notifications, now)
    {
      var u := users[i];
      var info := RosterEntry(u.displayName, u.iconPath, IsOnline(now, u.lastActive),
                              UnreadCount(notifications, u.username));
      RosterStep(users, i, notifications, now);
      if IsOnline(now, u.lastActive) {
        online := online + [info];
      } else {
        offline := offline + [info];
      }
    }
    assert users[..|users|] == users;
    RosterShape(users, notifications, now);
  }

  /** One more user adds its line to the list of its kind and leaves the other list as it was. */
  lemma RosterStep(users: seq<User>, i: int, notifications: seq<Notification>, now: int)
    requires 0 <= i < |users|
    ensures var u := users[i];
            var on := Entries(OnlineUsers(users[..i], now), notifications, now);
            var off := Entries(OfflineUsers(users[..i], now), notifications, now);
            && Entries(OnlineUsers(users[..i + 1], now), notifications, now)
               == (if IsOnline(now, u.lastActive) then on + [Entry(u, notifications, now)] else on)
            && Entries(OfflineUsers(users[..i + 1], now), notifications, now)
               == (if IsOnline(now, u.lastActive) then off else off + [Entry(u, notifications, now)])
  {
    var u := users[i];
    assert users[..i + 1] == users[..i] + [u];
    FilterSnoc(users[..i], u, OnlineAt(now));
    FilterSnoc(users[..i], u, OfflineAt(now));
    EntriesSnoc(OnlineUsers(users[..i], now), u, notifications, now);
    EntriesSnoc(OfflineUsers(users[..i], now), u, notifications, now);
  }

  /** The two lists of the roster hold one line per user, flagged by presence. */
  lemma RosterShape(users: seq<User>, notifications: seq<Notification>, now: int)
    ensures var online := Entries(OnlineUsers(users, now), notifications, now);
            var offline := Entries(OfflineUsers(users, now), notifications, now);
            && (forall k :: 0 <= k < |online| ==> online[k].online)
            && (forall k :: 0 <= k < |offline| ==> !offline[k].online)
            && |online| + |offline| == |users|
  {
    RosterPartition(users, now);
    assert |multiset(OnlineUsers(users, now))| + |multiset(OfflineUsers(users, now))| == |multiset(users)|;
    EntriesFlag(OnlineUsers(users, now), notifications, now);
    EntriesFlag(OfflineUsers(users, now), notifications, now);
    var on := OnlineUsers(users, now);
    var off := OfflineUsers(users, now);
    forall k | 0 <= k < |on| ensures IsOnline(now, on[k].lastActive) {
      assert on[k] in on;
    }
    forall k | 0 <= k < |off| ensures !IsOnline(now, off[k].lastActive) {
      assert off[k] in off;
    }
  }

  lemma EntriesSnoc(users: seq<User>, u: User, notifications: seq<Notification>, now: int)
    ensures Entries(users + [u], notifications, now) == Entries(users, notifications, now) + [Entry(u, notifications, now)]
  {
    var a := Entries(users + [u], notifications, now);
    var b := Entries(users, notifications, now) + [Entry(u, notifications, now)];
    forall k | 0 <= k < |a| ensures a[k] == b[k] {
      assert (users + [u])[k] == if k < |users| then users[k] else u;
    }
  }

  /** Each line's online flag is the presence of the user it shows. */
  lemma EntriesFlag(users: seq<User>, notifications: seq<Notification>, now: int)
    ensures forall k :: 0 <= k < |users| ==>
              Entries(users, notifications, now)[k].online == IsOnline(now, users[k].lastActive)
  {
  }

  /**
   * Every user is on the roster exactly once: the online and the offline
   * lists together hold each row of the users table once, each list only
   * users of its kind.
   */
  lemma {:induction false} RosterPartition(users: seq<User>, now: int)
    ensures multiset(OnlineUsers(users, now)) + multiset(OfflineUsers(users, now)) == multiset(users)
    ensures forall u :: u in OnlineUsers(users, now) <==> u in users && IsOnline(now, u.lastActive)
    ensures forall u :: u in OfflineUsers(users, now) <==> u in users && !IsOnline(now, u.lastActive)
  {
    if |users| > 0 {
      RosterPartition(users[1..], now);
      assert users == [users[0]] + users[1..];
    }
  }

  /** Five seconds after the last activity a user is online; fifteen seconds after, offline. */
  lemma PresenceExamples(lastActive: int)
    ensures IsOnline(lastActive + 5, lastActive)
    ensures !IsOnline(lastActive + 15, lastActive)
    ensures !IsOnline(lastActive + OnlineWindow, lastActive)
  {
  }
}
