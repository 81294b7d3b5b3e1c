/**
 * The rows of the board's tables (index.html/app.py:18-44) and the
 * permission rule shared by both delete buttons.
 *
 * The minute-precision created_at text of posts and comments is not part of
 * this model; last_active is a whole number of seconds.
 */
module Schema {
  import opened Tables

  datatype Option<T> = None | Some(value: T)

  /** A row of `posts`. imagePath is None when no file was attached. */
  datatype Post = Post(id: int, title: string, content: string, user: string,
                       category: string, imagePath: Option<string>)

  /** A row of `comments`; parentId 0 marks a top-level comment. */
  datatype Comment = Comment(id: int, postId: int, parentId: int, user: string,
                             content: string, imagePath: Option<string>)

  /** A row of `users`, keyed by username. */
  datatype User = User(username: string, displayName: string, iconPath: Option<string>,
                       lastActive: int)

  /** A row of `notifications`; isRead stands for is_read = 1. */
  datatype Notification = Notification(id: int, targetUser: string, commentId: int, isRead: bool)

  /** The category a post gets when none is chosen. */
  const DefaultCategory: string := "未分類"

  function PostId(p: Post): int { p.id }
  function CommentId(c: Comment): int { c.id }
  function NotificationId(n: Notification): int { n.id }

  /** The one user name with delete rights over everyone's content. */
  const Admin: string := "admin"

  /** The delete button is shown to the content's author and to the admin. */
  predicate CanDelete(author: string, actor: string) {
    author == actor || actor == Admin
  }

  /** Two user rows with different usernames. */
  function DistinctNames(): (User, User) -> bool {
    (a: User, b: User) => a.username != b.username
  }

  /** No two rows of the users table share a username (PRIMARY KEY). */
  predicate UniqueUsernames(us: seq<User>) {
    Ordered(us, DistinctNames())
  }
}
