/**
 * The rows of the hosted tables that the blog pages read and write, and the
 * row-count queries they issue. The tables themselves are held in memory by
 * the page models.
 */
module Tables {
  import opened Wrappers
  import Seqs

  type UserId = string
  type PostId = string
  type CommentId = string

  /**
   * A row of `blog_posts`. `created_at` is a timestamp; a `published` column
   * that is null is read as `false`, since every query filters on `published = true`.
   */
  datatype BlogPostRow = BlogPostRow(
    id: PostId,
    title: string,
    content: string,
    category: Option<string>,
    imageUrl: Option<string>,
    authorId: Option<UserId>,
    published: bool,
    createdAt: int)

  /** A row of `blog_likes`: its presence marks that `userId` likes `postId`. */
  datatype Like = Like(postId: PostId, userId: UserId)

  /** A row of `blog_comments`. */
  datatype Comment = Comment(id: CommentId, postId: PostId, userId: UserId, content: string, createdAt: int)

  /** The like rows of one post: `.from('blog_likes').eq('post_id', postId)`. */
  function LikesOn(likes: set<Like>, postId: PostId): (r: set<Like>)
    ensures r <= likes
    ensures forall l :: l in r <==> l in likes && l.postId == postId
  {
    set l | l in likes && l.postId == postId
  }

  /** The comment rows of one post, in table order: `.from('blog_comments').eq('post_id', postId)`. */
  function CommentsOn(comments: seq<Comment>, postId: PostId): (r: seq<Comment>)
    ensures Seqs.IsSubsequence(r, comments)
    ensures forall c :: c in r ==> c.postId == postId
    ensures forall c :: c in comments && c.postId == postId ==> c in r
  {
    var r := Seqs.Filter(comments, (c: Comment) => c.postId == postId);
    assert forall c :: c in comments ==> multiset(comments)[c] > 0;
    assert forall c :: c in comments && c.postId == postId ==> multiset(r)[c] > 0;
    r
  }

  /** The like-count query of the blog listing answered from the in-memory table: it never fails. */
  function LikeCountQuery(likes: set<Like>): PostId -> Option<nat>
  {
    (postId: PostId) => Some(|LikesOn(likes, postId)|)
  }

  /** The comment-count query of the blog listing answered from the in-memory table: it never fails. */
  function CommentCountQuery(comments: seq<Comment>): PostId -> Option<nat>
  {
    (postId: PostId) => Some(|CommentsOn(comments, postId)|)
  }
}
