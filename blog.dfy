/**
 * The blog listing page: which posts it lists and in what order, the like and
 * comment counts attached to each post, the category buttons, and the plain
 * text excerpt shown for each post.
 */
module Blog {
  import opened Wrappers
  import opened Tables
  import Seqs

  // ---------------------------------------------------------------------------
  // getExcerpt
  // ---------------------------------------------------------------------------

  /** The position of the first `>` at or after `from`. */
  function CloseIndex(s: string, from: nat): (r: nat)
    requires from <= |s| && '>' in s[from..]
    ensures from <= r < |s| && s[r] == '>'
    ensures forall k :: from <= k < r ==> s[k] != '>'
    decreases |s| - from
  {
    assert s[from..] == [s[from]] + s[from + 1..];
    if s[from] == '>' then from else CloseIndex(s, from + 1)
  }

  /**
   * `s.replace(/<[^>]*>/g, '')`. Scanning left to right, a `<` that has a `>`
   * somewhere after it starts a match that runs to the first such `>` and is
   * deleted; any other character is kept and the scan moves one step on.
   */
  function StripTags(s: string): (r: string)
    ensures |r| <= |s|
    decreases |s|
  {
    if s == [] then []
    else if s[0] == '<' && '>' in s[1..] then StripTags(s[CloseIndex(s, 1) + 1..])
    else [s[0]] + StripTags(s[1..])
  }

  /** No `<` in `t` is followed, anywhere later, by a `>`: the pattern `<[^>]*>` cannot match. */
  predicate NoClosableTag(t: string)
  {
    forall i, j :: 0 <= i < j < |t| && t[i] == '<' ==> t[j] != '>'
  }

  /** Stripping only deletes characters: what is left keeps its order. */
  lemma {:induction false} StripTagsSubsequence(s: string)
    ensures Seqs.IsSubsequence(StripTags(s), s)
    decreases |s|
  {
    if s != [] {
      if s[0] == '<' && '>' in s[1..] {
        var k := CloseIndex(s, 1);
        StripTagsSubsequence(s[k + 1..]);
        Seqs.SubsequenceOfSuffix(StripTags(s), s, k + 1);
      } else {
        StripTagsSubsequence(s[1..]);
        var r := StripTags(s);
        assert r[0] == s[0] && r[1..] == StripTags(s[1..]);
      }
    }
  }

  /** One global pass removes every tag that can be closed: no `<` of the result is followed by a `>`. */
  lemma {:induction false} StripTagsLeavesNoTag(s: string)
    ensures NoClosableTag(StripTags(s))
    decreases |s|
  {
    if s != [] {
      if s[0] == '<' && '>' in s[1..] {
        StripTagsLeavesNoTag(s[CloseIndex(s, 1) + 1..]);
      } else {
        var rest := StripTags(s[1..]);
        StripTagsLeavesNoTag(s[1..]);
        if s[0] == '<' {
          StripTagsSubsequence(s[1..]);
          Seqs.SubsequenceElements(rest, s[1..]);
        }
        var r := StripTags(s);
        assert r == [s[0]] + rest;
        forall i, j | 0 <= i < j < |r| && r[i] == '<'
          ensures r[j] != '>'
        {
          assert r[j] == rest[j - 1];
          if i > 0 {
            assert r[i] == rest[i - 1];
          } else {
            assert rest[j - 1] in rest;
          }
        }
      }
    }
  }

  /** Text in which no tag can be closed comes back unchanged. */
  lemma {:induction false} StripTagsKeepsTagFreeText(s: string)
    requires NoClosableTag(s)
    ensures StripTags(s) == s
    decreases |s|
  {
    if s != [] {
      var tail := s[1..];
      if s[0] == '<' {
        forall k | 0 <= k < |tail|
          ensures tail[k] != '>'
        {
          assert tail[k] == s[k + 1];
        }
      }
      forall i, j | 0 <= i < j < |tail| && tail[i] == '<'
        ensures tail[j] != '>'
      {
        assert tail[i] == s[i + 1] && tail[j] == s[j + 1];
      }
      StripTagsKeepsTagFreeText(tail);
      assert s == [s[0]] + tail;
    }
  }

  /** Stripping twice is the same as stripping once. */
  lemma StripTagsIdempotent(s: string)
    ensures StripTags(StripTags(s)) == StripTags(s)
  {
    StripTagsLeavesNoTag(s);
    StripTagsKeepsTagFreeText(StripTags(s));
  }

  /**
   * A complete tag disappears together with everything between its brackets,
   * while the text before it, which opens no tag, is kept as it is.
   */
  lemma {:induction false} StripTagsRemovesTag(text: string, inner: string, rest: string)
    requires '<' !in text && '>' !in inner
    ensures StripTags(text + ['<'] + inner + ['>'] + rest) == text + StripTags(rest)
    decreases |text|
  {
    var s := text + ['<'] + inner + ['>'] + rest;
    if text == [] {
      assert s == ['<'] + inner + ['>'] + rest;
      assert s[1..][|inner|] == '>';
      assert forall m :: 1 <= m <= |inner| ==> s[m] == inner[m - 1];
      var k := CloseIndex(s, 1);
      assert k == |inner| + 1;
      assert s[k + 1..] == rest;
    } else {
      assert s[0] == text[0];
      assert s[1..] == text[1..] + ['<'] + inner + ['>'] + rest;
      StripTagsRemovesTag(text[1..], inner, rest);
      assert text == [text[0]] + text[1..];
    }
  }

  /** The default length of an excerpt. */
  const DefaultExcerptLength: nat := 200

  /**
   * `getExcerpt`: the content with its tags stripped, cut to `maxLength`
   * characters followed by "..." when it is longer than that.
   */
  function Excerpt(content: string, maxLength: nat := DefaultExcerptLength): string
  {
    var stripped := StripTags(content);
    if |stripped| > maxLength then stripped[..maxLength] + "..." else stripped
  }

  /**
   * Text that fits is shown whole; longer text is its first `maxLength`
   * characters and "...", `maxLength + 3` characters in all. Either way the
   * text part is made of characters of the content, in order, with no tag left.
   */
  lemma ExcerptShape(content: string, maxLength: nat)
    ensures var r, stripped := Excerpt(content, maxLength), StripTags(content);
      && (|stripped| <= maxLength ==> r == stripped)
      && (|stripped| > maxLength ==>
            |r| == maxLength + 3 && r[..maxLength] == stripped[..maxLength] && r[maxLength..] == "...")
    ensures var r := Excerpt(content, maxLength);
      var text := if |r| > maxLength then r[..maxLength] else r;
      Seqs.IsSubsequence(text, content) && NoClosableTag(text) && |r| <= maxLength + 3
  {
    var stripped := StripTags(content);
    StripTagsSubsequence(content);
    StripTagsLeavesNoTag(content);
    if |stripped| > maxLength {
      Seqs.SubsequencePrefix(stripped, content, maxLength);
      assert Excerpt(content, maxLength)[..maxLength] == stripped[..maxLength];
    }
  }

  // ---------------------------------------------------------------------------
  // Categories
  // ---------------------------------------------------------------------------

  /** `posts.map(p => p.category).filter(Boolean)`: the categories that are set and non-empty, in post order. */
  function PresentCategories(posts: seq<BlogPostRow>): seq<string>
  {
    if posts == [] then []
    else
      var rest := PresentCategories(posts[1..]);
      match posts[0].category
      case Some(c) => if c != "" then [c] + rest else rest
      case None => rest
  }

  /** The category `c` is set on some post. */
  ghost predicate HasCategory(posts: seq<BlogPostRow>, c: string)
  {
    exists k :: 0 <= k < |posts| && posts[k].category == Some(c)
  }

  lemma {:induction false} PresentCategoriesMembers(posts: seq<BlogPostRow>, c: string)
    ensures c in PresentCategories(posts) <==> c != "" && HasCategory(posts, c)
  {
    if posts != [] {
      PresentCategoriesMembers(posts[1..], c);
      if HasCategory(posts[1..], c) {
        var k :| 0 <= k < |posts[1..]| && posts[1..][k].category == Some(c);
        assert posts[k + 1].category == Some(c);
      }
      if HasCategory(posts, c) {
        var k :| 0 <= k < |posts| && posts[k].category == Some(c);
        if k > 0 {
          assert posts[1..][k - 1].category == Some(c);
        }
      }
    }
  }

  /** `Array.from(new Set(...))` over the present categories. */
  function UniqueCategories(posts: seq<BlogPostRow>): seq<string>
  {
    Seqs.Distinct(PresentCategories(posts))
  }

  /**
   * The category buttons: every non-empty category set on a fetched post,
   * each once, in the order in which the posts first use them.
   */
  lemma UniqueCategoriesSpec(posts: seq<BlogPostRow>)
    ensures forall c :: c in UniqueCategories(posts) <==> c != "" && HasCategory(posts, c)
    ensures forall i, j :: 0 <= i < j < |UniqueCategories(posts)| ==> UniqueCategories(posts)[i] != UniqueCategories(posts)[j]
    ensures var present := PresentCategories(posts);
      forall i, j :: 0 <= i < j < |UniqueCategories(posts)| ==>
        Seqs.FirstIndex(present, UniqueCategories(posts)[i]) < Seqs.FirstIndex(present, UniqueCategories(posts)[j])
  {
    forall c {
      PresentCategoriesMembers(posts, c);
    }
    Seqs.DistinctFirstOccurrenceOrder(PresentCategories(posts));
  }

  // ---------------------------------------------------------------------------
  // fetchPosts
  // ---------------------------------------------------------------------------

  /** `selectedCategory` is truthy: a category other than the empty string is chosen. */
  predicate FiltersCategory(selected: Option<string>)
  {
    selected.Some? && selected.value != ""
  }

  /** The row passes the listing query's filters: published and, when filtering, of the chosen category. */
  predicate Listed(row: BlogPostRow, selected: Option<string>)
  {
    row.published && (FiltersCategory(selected) ==> row.category == selected)
  }

  /** The listing query: published posts, of the chosen category if any, newest first. */
  function ListingQuery(table: seq<BlogPostRow>, selected: Option<string>): seq<BlogPostRow>
  {
    Seqs.SortDescending(Seqs.Filter(table, (p: BlogPostRow) => Listed(p, selected)), (p: BlogPostRow) => p.createdAt)
  }

  /**
   * The listing holds exactly the published rows (of the chosen category, if
   * any), each as often as in the table, newest first.
   */
  lemma ListingQuerySpec(table: seq<BlogPostRow>, selected: Option<string>)
    ensures forall p :: p in ListingQuery(table, selected) ==> p.published
    ensures FiltersCategory(selected) ==> forall p :: p in ListingQuery(table, selected) ==> p.category == selected
    ensures forall p :: multiset(ListingQuery(table, selected))[p] == if Listed(p, selected) then multiset(table)[p] else 0
    ensures Seqs.Descending(ListingQuery(table, selected), (p: BlogPostRow) => p.createdAt)
  {
    var r := ListingQuery(table, selected);
    var filtered := Seqs.Filter(table, (p: BlogPostRow) => Listed(p, selected));
    assert multiset(r) == multiset(filtered);
    forall p | p in r
      ensures Listed(p, selected)
    {
      assert p in multiset(r);
      assert p in filtered;
    }
  }

  /** Posts that all carry the category `c` give at most the one button `c`. */
  lemma SingleCategoryButtons(posts: seq<BlogPostRow>, c: string)
    requires forall p :: p in posts ==> p.category == Some(c)
    ensures UniqueCategories(posts) == [] || UniqueCategories(posts) == [c]
  {
    var present := PresentCategories(posts);
    forall i | 0 <= i < |present|
      ensures present[i] == c
    {
      assert present[i] in present;
      PresentCategoriesMembers(posts, present[i]);
      var k :| 0 <= k < |posts| && posts[k].category == Some(present[i]);
      assert posts[k] in posts;
    }
    Seqs.DistinctOfConstant(present, c);
  }

  /** Choosing a category narrows the category buttons to that category alone (or none). */
  lemma ChosenCategoryNarrowsButtons(table: seq<BlogPostRow>, c: string)
    requires c != ""
    ensures UniqueCategories(ListingQuery(table, Some(c))) == [] || UniqueCategories(ListingQuery(table, Some(c))) == [c]
  {
    ListingQuerySpec(table, Some(c));
    SingleCategoryButtons(ListingQuery(table, Some(c)), c);
  }

  /** A listed post with the like and comment counts shown on its card. */
  datatype PostWithCounts = PostWithCounts(post: BlogPostRow, likeCount: nat, commentCount: nat)

  /**
   * The per-post count queries: one like count and one comment count per post,
   * the count of a query that returned no number read as 0.
   */
  function AttachCounts(posts: seq<BlogPostRow>, likeCount: PostId -> Option<nat>, commentCount: PostId -> Option<nat>)
    : (r: seq<PostWithCounts>)
    ensures |r| == |posts|
    ensures forall k :: 0 <= k < |posts| ==> r[k].post == posts[k]
    ensures forall k :: 0 <= k < |posts| ==> likeCount(posts[k].id).None? ==> r[k].likeCount == 0
    ensures forall k :: 0 <= k < |posts| ==> commentCount(posts[k].id).None? ==> r[k].commentCount == 0
    ensures forall k :: 0 <= k < |posts| ==> likeCount(posts[k].id).Some? ==> r[k].likeCount == likeCount(posts[k].id).value
    ensures forall k :: 0 <= k < |posts| ==> commentCount(posts[k].id).Some? ==> r[k].commentCount == commentCount(posts[k].id).value
  {
    seq(|posts|, k requires 0 <= k < |posts| =>
      PostWithCounts(posts[k], likeCount(posts[k].id).GetOr(0), commentCount(posts[k].id).GetOr(0)))
  }

  /** Counted against the in-memory tables, each card shows the number of like and comment rows of its post. */
  lemma AttachCountsFromTables(posts: seq<BlogPostRow>, likes: set<Like>, comments: seq<Comment>, k: nat)
    requires k < |posts|
    ensures AttachCounts(posts, LikeCountQuery(likes), CommentCountQuery(comments))[k].likeCount
         == |LikesOn(likes, posts[k].id)|
    ensures AttachCounts(posts, LikeCountQuery(likes), CommentCountQuery(comments))[k].commentCount
         == |CommentsOn(comments, posts[k].id)|
  {
  }

  /** The state of the listing page. */
  class BlogListing {
    var posts: seq<PostWithCounts>
    var categories: seq<string>
    var selectedCategory: Option<string>
    var loading: bool

    /** The page starts loading, with nothing listed and no category chosen. */
    constructor ()
      ensures posts == [] && categories == [] && selectedCategory == None && loading
    {
      posts := [];
      categories := [];
      selectedCategory := None;
      loading := true;
    }

    /** A category button (or "All", `None`) sets the filter; the page then fetches again. */
    method SelectCategory(category: Option<string>)
      modifies this`selectedCategory
      ensures selectedCategory == category
    {
      selectedCategory := category;
    }

    /**
     * `fetchPosts`. `table` is `blog_posts`; `queryOk` is whether the listing
     * query succeeded; the two count queries are answered by `likeCount` and
     * `commentCount`. A failed query leaves the list and the buttons as they were.
     */
    method FetchPosts(table: seq<BlogPostRow>, likeCount: PostId -> Option<nat>, commentCount: PostId -> Option<nat>, queryOk: bool)
      modifies this`posts, this`categories, this`loading
      ensures !loading
      ensures queryOk ==> posts == AttachCounts(ListingQuery(table, selectedCategory), likeCount, commentCount)
      ensures queryOk ==> categories == UniqueCategories(ListingQuery(table, selectedCategory))
      ensures !queryOk ==> posts == old(posts) && categories == old(categories)
    {
      if queryOk {
        var fetched := ListingQuery(table, selectedCategory);
        posts := AttachCounts(fetched, likeCount, commentCount);
        categories := UniqueCategories(fetched);
      }
      loading := false;
    }
  }
}
