/**
 * The read-only queries over the tables: get_posts and get_comments
 * (index.html/app.py:104-122) and the single-row lookups by id used by the
 * comment handler, the delete buttons and the notification join.
 *
 * Tables are kept in id order (see Board.Store.Valid), which is how SQLite
 * stores a table whose key is an INTEGER PRIMARY KEY; ORDER BY id ASC is then
 * a forward scan and ORDER BY id DESC a backward one.
 */
module Queries {
  import opened Tables
  import opened Schema
  import opened SqlLike

  /**
   * The WHERE clause of get_posts. An empty search and a missing or empty
   * category are falsy in Python and add no condition.
   */
  predicate PostMatches(p: Post, search: string, categoryFilter: Option<string>) {
    && (search == "" || Like(SearchPattern(search), p.title) || Like(SearchPattern(search), p.content))
    && (categoryFilter.None? || categoryFilter.value == "" || p.category == categoryFilter.value)
  }

  /** PostMatches as a function value, for Filter. */
  function PostFilter(search: string, categoryFilter: Option<string>): Post -> bool {
    (p: Post) => PostMatches(p, search, categoryFilter)
  }

  /** get_posts(search, category_filter): the matching posts, newest id first. */
  function GetPosts(posts: seq<Post>, search: string, categoryFilter: Option<string>): (r: seq<Post>)
    requires Ascending(posts, PostId)
    ensures forall p :: p in r <==> p in posts && PostMatches(p, search, categoryFilter)
    ensures forall i, j :: 0 <= i < j < |r| ==> r[i].id > r[j].id
  {
    var keep := PostFilter(search, categoryFilter);
    var kept := Filter(posts, keep);
    FilterAscending(posts, keep, PostId);
    Reverse(kept)
  }

  /** With no search text and no category, get_posts returns every post, newest first. */
  lemma {:induction false} GetPostsUnfiltered(posts: seq<Post>)
    requires Ascending(posts, PostId)
    ensures GetPosts(posts, "", None) == Reverse(posts)
  {
    FilterKeepsAll(posts, PostFilter("", None));
  }

  /**
   * For a search text without wildcards the search is a case-insensitive
   * (ASCII) substring test on the title or the content.
   */
  lemma SearchFindsSubstrings(p: Post, search: string)
    requires search != "" && NoWildcards(search)
    ensures PostMatches(p, search, None) <==>
              ContainsFolded(p.title, search) || ContainsFolded(p.content, search)
  {
    SearchIsFoldedSubstring(search, p.title);
    SearchIsFoldedSubstring(search, p.content);
  }

  /** get_comments(post_id, parent_id): the direct replies under parentId in post postId, oldest first. */
  function GetComments(comments: seq<Comment>, postId: int, parentId: int): (r: seq<Comment>)
    requires Ascending(comments, CommentId)
    ensures forall c :: c in r <==> c in comments && c.postId == postId && c.parentId == parentId
    ensures forall i, j :: 0 <= i < j < |r| ==> r[i].id < r[j].id
  {
    var keep := (c: Comment) => c.postId == postId && c.parentId == parentId;
    FilterAscending(comments, keep, CommentId);
    Filter(comments, keep)
  }

  /** SELECT ... FROM comments WHERE id=?, first row. */
  function FindComment(comments: seq<Comment>, id: int): (r: Option<Comment>)
    ensures r.None? <==> forall c :: c in comments ==> c.id != id
    ensures r.Some? ==> r.value in comments && r.value.id == id
  {
    if |comments| == 0 then None
    else if comments[0].id == id then Some(comments[0])
    else FindComment(comments[1..], id)
  }

  /** SELECT ... FROM posts WHERE id=?, first row. */
  function FindPost(posts: seq<Post>, id: int): (r: Option<Post>)
    ensures r.None? <==> forall p :: p in posts ==> p.id != id
    ensures r.Some? ==> r.value in posts && r.value.id == id
  {
    if |posts| == 0 then None
    else if posts[0].id == id then Some(posts[0])
    else FindPost(posts[1..], id)
  }

  /** With unique ids the lookup finds the one row that has the id. */
  lemma FindCommentUnique(comments: seq<Comment>, c: Comment)
    requires Ascending(comments, CommentId)
    requires c in comments
    ensures FindComment(comments, c.id) == Some(c)
  {
    var f := FindComment(comments, c.id);
    var i :| 0 <= i < |comments| && comments[i] == c;
    var j :| 0 <= j < |comments| && comments[j] == f.value;
    assert i == j;
  }

  /** The author whose reply notification a comment with parent parentId triggers. */
  function ParentAuthor(comments: seq<Comment>, parentId: int): Option<string> {
    match FindComment(comments, parentId)
    case None => None
    case Some(c) => Some(c.user)
  }
}
