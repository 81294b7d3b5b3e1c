/**
 * The users table: set_user's INSERT OR REPLACE (index.html/app.py:53-61)
 * and update_user_activity's UPDATE (index.html/app.py:63-66). Times are
 * whole seconds; the icon bytes written to disk are not modelled, only the
 * path stored.
 */
module Users {
  import opened Tables
  import opened Schema

  /** Directory the uploads are written to. */
  const UploadDir: string := "uploads"

  /** The file name set_user gives an icon. */
  const IconSuffix: string := "_icon.png"

  /**
   * os.path.join(UPLOAD_DIR, f"{username}_icon.png") on a POSIX system: a
   * second part that starts with "/" is absolute and discards the directory.
   */
  function IconPath(username: string): (r: string)
    ensures |r| >= |username| + |IconSuffix| && r[|r| - |username| - |IconSuffix|..] == username + IconSuffix
    ensures (|username| > 0 && username[0] == '/') ==> |r| == |username| + |IconSuffix|
    ensures !(|username| > 0 && username[0] == '/') ==> r[..|UploadDir| + 1] == UploadDir + "/"
    ensures !(|username| > 0 && username[0] == '/') ==> |r| == |UploadDir| + 1 + |username| + |IconSuffix|
  {
    if |username| > 0 && username[0] == '/' then username + IconSuffix
    else UploadDir + "/" + username + IconSuffix
  }

  /** The row set_user writes: the icon path only when a file was given. */
  function ProfileRow(username: string, displayName: string, hasIcon: bool, now: int): User {
    User(username, displayName, if hasIcon then Some(IconPath(username)) else None, now)
  }

  /** Keeps the rows of users other than name. */
  function OtherUser(name: string): User -> bool {
    (u: User) => u.username != name
  }

  /**
   * INSERT OR REPLACE INTO users: any row with the same username is deleted
   * and the new row is inserted, so it gets a new rowid and moves to the end
   * of the table's scan order.
   */
  function UpsertUser(users: seq<User>, row: User): (r: seq<User>)
    ensures |r| > 0 && r[|r| - 1] == row
    ensures forall i :: 0 <= i < |r| - 1 ==> r[i].username != row.username
    ensures forall u: User :: u.username != row.username ==> (u in r <==> u in users)
    ensures UniqueUsernames(users) ==> UniqueUsernames(r)
  {
    UpsertKeepsUnique(users, row);
    Filter(users, OtherUser(row.username)) + [row]
  }

  /**
   * The rows kept by INSERT OR REPLACE all have another username, and keep
   * usernames unique when the table had them unique.
   */
  lemma UpsertKeepsUnique(users: seq<User>, row: User)
    ensures forall u :: u in Filter(users, OtherUser(row.username)) ==> u.username != row.username
    ensures UniqueUsernames(users) ==> UniqueUsernames(Filter(users, OtherUser(row.username)) + [row])
  {
    var others := Filter(users, OtherUser(row.username));
    assert forall i :: 0 <= i < |others| ==> others[i] in others;
    if UniqueUsernames(users) {
      FilterOrdered(users, OtherUser(row.username), DistinctNames());
    }
  }

  /**
   * UPDATE users SET last_active=? WHERE username=?: only last_active of the
   * rows for name changes; no row is added when name is absent.
   */
  function TouchUser(users: seq<User>, name: string, now: int): (r: seq<User>)
    ensures |r| == |users|
    ensures forall k :: 0 <= k < |r| ==>
              && r[k].username == users[k].username
              && r[k].displayName == users[k].displayName
              && r[k].iconPath == users[k].iconPath
              && r[k].lastActive == (if users[k].username == name then now else users[k].lastActive)
    ensures (forall u :: u in users ==> u.username != name) ==> r == users
  {
    if |users| == 0 then []
    else
      [if users[0].username == name then users[0].(lastActive := now) else users[0]]
      + TouchUser(users[1..], name, now)
  }

  /** Touching keeps usernames unique, as it never changes a username. */
  lemma TouchKeepsUnique(users: seq<User>, name: string, now: int)
    requires UniqueUsernames(users)
    ensures UniqueUsernames(TouchUser(users, name, now))
  {
  }
}
