/**
 * The page of a single blog post: loading the post, its likes and its
 * comments; liking and unliking; posting and deleting comments. The
 * `blog_likes` and `blog_comments` tables are held by the page model so that
 * the effect of each write, and of the re-fetch that the table's change
 * notification triggers, can be stated.
 */
module BlogPostPage {
  import opened Wrappers
  import opened JsText
  import opened Tables
  import Seqs

  // ---------------------------------------------------------------------------
  // commentSchema
  // ---------------------------------------------------------------------------

  /** The two messages of the comment schema. */
  datatype CommentError = EmptyComment | CommentTooLong

  /** The largest comment, in UTF-16 code units, after trimming. */
  const MaxCommentLength: nat := 1000

  /** `commentSchema.safeParse`: the trimmed text must hold between 1 and 1000 code units. */
  function ValidateComment(text: string): Result<string, CommentError>
  {
    var trimmed := Trim(text);
    if Utf16Length(trimmed) < 1 then Failure(EmptyComment)
    else if Utf16Length(trimmed) > MaxCommentLength then Failure(CommentTooLong)
    else Success(trimmed)
  }

  /**
   * A comment is accepted exactly when it is not blank and its trimmed text is
   * at most 1000 code units long; what is saved is the trimmed text.
   */
  lemma ValidateCommentSpec(text: string)
    ensures ValidateComment(text).Success? <==> !IsBlank(text) && Utf16Length(Trim(text)) <= MaxCommentLength
    ensures ValidateComment(text).Success? ==>
      var saved := ValidateComment(text).value;
      saved == Trim(text) && saved != [] && !IsWhitespace(saved[0]) && !IsWhitespace(saved[|saved| - 1])
  {
    TrimmedLengthZeroIffBlank(text);
  }

  /** Blank input is reported as empty, and only non-blank input as too long. */
  lemma ValidateCommentErrors(text: string)
    ensures ValidateComment(text) == Failure(EmptyComment) <==> IsBlank(text)
    ensures ValidateComment(text) == Failure(CommentTooLong) <==> !IsBlank(text) && Utf16Length(Trim(text)) > MaxCommentLength
  {
    TrimmedLengthZeroIffBlank(text);
  }

  /** Leading and trailing whitespace do not change whether, or as what, a comment is accepted. */
  lemma ValidateCommentIgnoresPadding(text: string)
    ensures ValidateComment(Trim(text)) == ValidateComment(text)
  {
    TrimIdempotent(text);
    SameTrimSameVerdict(Trim(text), text);
  }

  /** The schema looks at the trimmed text only. */
  lemma SameTrimSameVerdict(a: string, b: string)
    requires Trim(a) == Trim(b)
    ensures ValidateComment(a) == ValidateComment(b)
  {
  }

  // ---------------------------------------------------------------------------
  // Likes
  // ---------------------------------------------------------------------------

  /**
   * What `handleLike` asks the server to do with the user's like row `like`:
   * delete it when the page shows the post as liked, insert it otherwise.
   */
  function ToggleLike(likes: set<Like>, like: Like, hasLiked: bool): (r: set<Like>)
    ensures hasLiked ==> like !in r
    ensures !hasLiked ==> like in r
    ensures forall l :: l != like ==> (l in r <==> l in likes)
  {
    if hasLiked then likes - {like} else likes + {like}
  }

  /** When the page shows the like state correctly, liking and then unliking (or the reverse) restores the table. */
  lemma ToggleTwiceRestores(likes: set<Like>, like: Like)
    ensures like in likes ==> ToggleLike(ToggleLike(likes, like, true), like, false) == likes
    ensures like !in likes ==> ToggleLike(ToggleLike(likes, like, false), like, true) == likes
  {
  }

  /**
   * When the page shows the like state correctly, a toggle moves the post's
   * like count by exactly one and leaves every other post's likes alone.
   */
  lemma ToggleLikeCount(likes: set<Like>, like: Like, hasLiked: bool)
    requires hasLiked <==> like in likes
    ensures |LikesOn(ToggleLike(likes, like, hasLiked), like.postId)|
         == if hasLiked then |LikesOn(likes, like.postId)| - 1 else |LikesOn(likes, like.postId)| + 1
    ensures forall p :: p != like.postId ==> LikesOn(ToggleLike(likes, like, hasLiked), p) == LikesOn(likes, p)
  {
    var before, after := LikesOn(likes, like.postId), LikesOn(ToggleLike(likes, like, hasLiked), like.postId);
    if hasLiked {
      assert after == before - {like};
    } else {
      assert after == before + {like};
    }
  }

  // ---------------------------------------------------------------------------
  // Comments
  // ---------------------------------------------------------------------------

  /** Whether a comment's delete button is shown: to the comment's author and to admins. */
  predicate CanDelete(user: Option<UserId>, isAdmin: bool, comment: Comment)
  {
    (user.Some? && user.value == comment.userId) || isAdmin
  }

  /** Admins may delete every comment, signed-in members their own only, signed-out visitors none. */
  lemma CanDeleteSpec(user: Option<UserId>, isAdmin: bool, comment: Comment)
    ensures isAdmin ==> CanDelete(user, isAdmin, comment)
    ensures !isAdmin && user.None? ==> !CanDelete(user, isAdmin, comment)
    ensures !isAdmin && user.Some? ==> (CanDelete(user, isAdmin, comment) <==> comment.userId == user.value)
  {
  }

  /** The comments the page lists: those of the post, newest first. */
  function CommentsForPost(table: seq<Comment>, postId: PostId): seq<Comment>
  {
    Seqs.SortDescending(CommentsOn(table, postId), (c: Comment) => c.createdAt)
  }

  /** The listed comments are exactly the post's rows, each as often as in the table, newest first. */
  lemma CommentsForPostSpec(table: seq<Comment>, postId: PostId)
    ensures forall c :: multiset(CommentsForPost(table, postId))[c] == if c.postId == postId then multiset(table)[c] else 0
    ensures forall c :: c in CommentsForPost(table, postId) <==> c in table && c.postId == postId
    ensures Seqs.Descending(CommentsForPost(table, postId), (c: Comment) => c.createdAt)
  {
    var r := CommentsForPost(table, postId);
    forall c
      ensures c in r <==> c in table && c.postId == postId
    {
      assert c in r <==> c in multiset(r);
      assert c in table <==> c in multiset(table);
    }
  }

  /** The comment rows left after `.delete().eq('id', commentId)`. */
  function WithoutComment(table: seq<Comment>, commentId: CommentId): seq<Comment>
  {
    Seqs.Filter(table, (c: Comment) => c.id != commentId)
  }

  /** Deleting removes every row with the id and keeps all other rows, in order. */
  lemma WithoutCommentSpec(table: seq<Comment>, commentId: CommentId)
    ensures forall c :: c in WithoutComment(table, commentId) ==> c.id != commentId
    ensures forall c :: multiset(WithoutComment(table, commentId))[c] == if c.id == commentId then 0 else multiset(table)[c]
    ensures Seqs.IsSubsequence(WithoutComment(table, commentId), table)
  {
  }

  /** A posted comment shows up in the list the next time the comments are fetched. */
  lemma PostedCommentListed(table: seq<Comment>, comment: Comment)
    ensures comment in CommentsForPost(table + [comment], comment.postId)
  {
    CommentsForPostSpec(table + [comment], comment.postId);
    assert (table + [comment])[|table|] == comment;
  }

  /** A deleted comment no longer shows up once the comments are fetched again. */
  lemma DeletedCommentGone(table: seq<Comment>, commentId: CommentId, postId: PostId)
    ensures forall c :: c in CommentsForPost(WithoutComment(table, commentId), postId) ==> c.id != commentId
  {
    var rest := WithoutComment(table, commentId);
    WithoutCommentSpec(table, commentId);
    CommentsForPostSpec(rest, postId);
  }

  // ---------------------------------------------------------------------------
  // fetchPost
  // ---------------------------------------------------------------------------

  /** Where `fetchPost` leaves the visitor: on the post, or sent back to the blog. */
  datatype PostLoad = Loaded(post: BlogPostRow) | BackToBlog

  /** The row is the published post with id `postId`. */
  predicate IsPublishedPost(row: BlogPostRow, postId: PostId)
  {
    row.id == postId && row.published
  }

  /** The rows `.eq('id', postId).eq('published', true)` selects, in table order. */
  function PublishedWithId(table: seq<BlogPostRow>, postId: PostId): seq<BlogPostRow>
  {
    Seqs.Filter(table, (row: BlogPostRow) => IsPublishedPost(row, postId))
  }

  /**
   * `.single()`: the query succeeds only when it selects exactly one row; a
   * failed request or any other number of rows sends the visitor back.
   */
  function LoadPost(table: seq<BlogPostRow>, postId: PostId, queryOk: bool): PostLoad
  {
    var rows := PublishedWithId(table, postId);
    if queryOk && |rows| == 1 then Loaded(rows[0]) else BackToBlog
  }

  /** Only a published row with the requested id is ever shown, and only when the request succeeded. */
  lemma LoadPostSound(table: seq<BlogPostRow>, postId: PostId, queryOk: bool)
    ensures LoadPost(table, postId, queryOk).Loaded? ==>
      queryOk && IsPublishedPost(LoadPost(table, postId, queryOk).post, postId) && LoadPost(table, postId, queryOk).post in table
    ensures (forall k :: 0 <= k < |table| ==> !IsPublishedPost(table[k], postId)) ==> LoadPost(table, postId, queryOk) == BackToBlog
  {
    var rows := PublishedWithId(table, postId);
    Seqs.SubsequenceElements(rows, table);
    if |rows| == 1 {
      assert rows[0] in rows;
    }
  }

  /** A single published row with the id is loaded when the request succeeds. */
  lemma LoadPostUniqueRow(table: seq<BlogPostRow>, postId: PostId, k: nat)
    requires k < |table| && IsPublishedPost(table[k], postId)
    requires forall j :: 0 <= j < |table| && IsPublishedPost(table[j], postId) ==> j == k
    ensures LoadPost(table, postId, true) == Loaded(table[k])
  {
    Seqs.FilterSingle(table, (row: BlogPostRow) => IsPublishedPost(row, postId), k);
  }

  // ---------------------------------------------------------------------------
  // The page
  // ---------------------------------------------------------------------------

  /** How `handleLike` ends. */
  datatype LikeOutcome = LikeNeedsSignIn | LikeFailed | LikeSent

  /** How `handleSubmitComment` ends. */
  datatype SubmitOutcome = CommentNeedsSignIn | CommentRejected(error: CommentError) | CommentFailed | CommentPosted

  /**
   * The state of the post page for one `postId` and one visitor. `likeTable`
   * and `commentTable` are `blog_likes` and `blog_comments`; the other fields
   * are the page's own state.
   */
  class BlogPostView {
    const postId: PostId
    const user: Option<UserId>
    const isAdmin: bool
    var likeTable: set<Like>
    var commentTable: seq<Comment>
    var post: Option<BlogPostRow>
    var loading: bool
    var comments: seq<Comment>
    var newComment: string
    var likeCount: nat
    var hasLiked: bool

    /** The listed comments all belong to this post and are newest first. */
    ghost predicate Valid()
      reads this
    {
      && (forall c :: c in comments ==> c.postId == postId)
      && Seqs.Descending(comments, (c: Comment) => c.createdAt)
    }

    /** The page opens loading, with no post, no comments, no likes counted and an empty comment box. */
    constructor (postId: PostId, user: Option<UserId>, isAdmin: bool, likeTable: set<Like>, commentTable: seq<Comment>)
      ensures this.postId == postId && this.user == user && this.isAdmin == isAdmin
      ensures this.likeTable == likeTable && this.commentTable == commentTable
      ensures post == None && loading && comments == [] && newComment == "" && likeCount == 0 && !hasLiked
      ensures Valid()
    {
      this.postId := postId;
      this.user := user;
      this.isAdmin := isAdmin;
      this.likeTable := likeTable;
      this.commentTable := commentTable;
      post := None;
      loading := true;
      comments := [];
      newComment := "";
      likeCount := 0;
      hasLiked := false;
    }

    /** `fetchPost` against `blog_posts`; `queryOk` is whether the request itself went through. */
    method FetchPost(table: seq<BlogPostRow>, queryOk: bool) returns (load: PostLoad)
      requires Valid()
      modifies this`post, this`loading
      ensures Valid()
      ensures load == LoadPost(table, postId, queryOk)
      ensures load.Loaded? ==> post == Some(load.post)
      ensures load.BackToBlog? ==> post == old(post)
      ensures !loading
    {
      load := LoadPost(table, postId, queryOk);
      if load.Loaded? {
        post := Some(load.post);
      }
      loading := false;
    }

    /**
     * `fetchLikes`. `countOk` is whether the count request went through;
     * `checkOk` whether the request for the visitor's own like row did.
     */
    method FetchLikes(countOk: bool, checkOk: bool)
      requires Valid()
      modifies this`likeCount, this`hasLiked
      ensures Valid()
      ensures countOk ==> likeCount == |LikesOn(likeTable, postId)|
      ensures !countOk ==> likeCount == old(likeCount)
      ensures countOk && user.Some? ==> hasLiked == (checkOk && Like(postId, user.value) in likeTable)
      ensures !countOk || user.None? ==> hasLiked == old(hasLiked)
    {
      if countOk {
        likeCount := |LikesOn(likeTable, postId)|;
        if user.Some? {
          hasLiked := checkOk && Like(postId, user.value) in likeTable;
        }
      }
    }

    /**
     * `handleLike`: deletes or inserts the visitor's like row according to
     * `hasLiked`. The count and `hasLiked` change only when the table's change
     * notification makes the page call `FetchLikes`.
     */
    method HandleLike(serverOk: bool) returns (outcome: LikeOutcome)
      requires Valid()
      modifies this`likeTable
      ensures Valid()
      ensures user.None? ==> outcome == LikeNeedsSignIn && likeTable == old(likeTable)
      ensures user.Some? && !serverOk ==> outcome == LikeFailed && likeTable == old(likeTable)
      ensures user.Some? && serverOk ==>
        outcome == LikeSent && likeTable == ToggleLike(old(likeTable), Like(postId, user.value), hasLiked)
    {
      if user.None? {
        return LikeNeedsSignIn;
      }
      if !serverOk {
        return LikeFailed;
      }
      likeTable := ToggleLike(likeTable, Like(postId, user.value), hasLiked);
      outcome := LikeSent;
    }

    /**
     * `handleSubmitComment`: a signed-in visitor's valid comment is inserted
     * trimmed, with the server's `id` and timestamp `now`, and the box is
     * cleared; anything else leaves the table and the box as they were.
     */
    method HandleSubmitComment(serverOk: bool, id: CommentId, now: int) returns (outcome: SubmitOutcome)
      requires Valid()
      modifies this`commentTable, this`newComment
      ensures Valid()
      ensures user.None? ==> outcome == CommentNeedsSignIn
      ensures user.Some? && ValidateComment(old(newComment)).Failure? ==>
        outcome == CommentRejected(ValidateComment(old(newComment)).error)
      ensures user.Some? && ValidateComment(old(newComment)).Success? ==>
        outcome == (if serverOk then CommentPosted else CommentFailed)
      ensures outcome == CommentPosted ==>
        && commentTable == old(commentTable) + [Comment(id, postId, user.value, Trim(old(newComment)), now)]
        && newComment == ""
      ensures outcome != CommentPosted ==> commentTable == old(commentTable) && newComment == old(newComment)
    {
      if user.None? {
        return CommentNeedsSignIn;
      }
      var validation := ValidateComment(newComment);
      if validation.Failure? {
        return CommentRejected(validation.error);
      }
      if !serverOk {
        return CommentFailed;
      }
      commentTable := commentTable + [Comment(id, postId, user.value, validation.value, now)];
      newComment := "";
      outcome := CommentPosted;
    }

    /**
     * `fetchComments`: the post's comments, newest first. A failed request
     * keeps the list as it was.
     */
    method FetchComments(queryOk: bool)
      requires Valid()
      modifies this`comments
      ensures Valid()
      ensures queryOk ==> comments == CommentsForPost(commentTable, postId)
      ensures !queryOk ==> comments == old(comments)
    {
      if queryOk {
        comments := CommentsForPost(commentTable, postId);
        CommentsForPostSpec(commentTable, postId);
      }
    }

    /**
     * `handleDeleteComment`: the page itself checks no permission (the button
     * is only shown when `CanDelete` holds); the rows with the id go when the
     * server accepts the request.
     */
    method HandleDeleteComment(commentId: CommentId, serverOk: bool) returns (deleted: bool)
      requires Valid()
      modifies this`commentTable
      ensures Valid()
      ensures deleted == serverOk
      ensures serverOk ==> commentTable == WithoutComment(old(commentTable), commentId)
      ensures !serverOk ==> commentTable == old(commentTable)
    {
      if serverOk {
        commentTable := WithoutComment(commentTable, commentId);
      }
      deleted := serverOk;
    }
  }
}
