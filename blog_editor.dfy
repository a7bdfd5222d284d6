/**
 * The admin's blog editor: the post schema, the normalisation of a checked
 * form into the row that is saved, the choice between updating the post
 * being edited and inserting a new one, and the form's reset and
 * load-for-edit transitions.
 */
module BlogEditor {
  import opened Wrappers
  import opened JsText
  import opened Tables
  import Seqs

  // ---------------------------------------------------------------------------
  // blogPostSchema
  // ---------------------------------------------------------------------------

  /** The schema's messages, in the order of the fields it checks. */
  datatype FormError = TitleEmpty | TitleTooLong | ContentEmpty | ContentTooLong | CategoryTooLong | InvalidImageUrl

  /** Largest title, content and category, in UTF-16 code units, after trimming. */
  const MaxTitleLength: nat := 200
  const MaxContentLength: nat := 50000
  const MaxCategoryLength: nat := 50

  /**
   * What a successful parse yields: trimmed title and content; the trimmed
   * category, absent when the field was empty; the image URL as typed, absent
   * when the field was empty.
   */
  datatype CheckedPost = CheckedPost(title: string, content: string, category: Option<string>, imageUrl: Option<string>)

  /** A form field that is `""` is passed to the schema as `undefined` (`field || undefined`). */
  function Present(field: string): Option<string>
  {
    if field == "" then None else Some(field)
  }

  /**
   * `blogPostSchema.safeParse` on the form fields. `isUrl` stands for the
   * schema's URL check. All fields are checked and the first message, in field
   * order, is the one reported.
   */
  function ValidatePost(title: string, content: string, category: string, imageUrl: string, isUrl: string -> bool)
    : Result<CheckedPost, FormError>
  {
    var t, c := Trim(title), Trim(content);
    if Utf16Length(t) < 1 then Failure(TitleEmpty)
    else if Utf16Length(t) > MaxTitleLength then Failure(TitleTooLong)
    else if Utf16Length(c) < 1 then Failure(ContentEmpty)
    else if Utf16Length(c) > MaxContentLength then Failure(ContentTooLong)
    else if Present(category).Some? && Utf16Length(Trim(category)) > MaxCategoryLength then Failure(CategoryTooLong)
    else if Present(imageUrl).Some? && !isUrl(imageUrl) then Failure(InvalidImageUrl)
    else
      var cat := if Present(category).Some? then Some(Trim(category)) else None;
      Success(CheckedPost(t, c, cat, Present(imageUrl)))
  }

  /** The form passes the schema exactly when every field is within its bounds. */
  predicate FieldsWithinBounds(title: string, content: string, category: string, imageUrl: string, isUrl: string -> bool)
  {
    && !IsBlank(title) && Utf16Length(Trim(title)) <= MaxTitleLength
    && !IsBlank(content) && Utf16Length(Trim(content)) <= MaxContentLength
    && Utf16Length(Trim(category)) <= MaxCategoryLength
    && (imageUrl == "" || isUrl(imageUrl))
  }

  /**
   * The schema accepts a form exactly when its trimmed title holds 1 to 200
   * code units, its trimmed content 1 to 50000, its trimmed category at most
   * 50, and its image URL is empty or a URL.
   */
  lemma ValidatePostSpec(title: string, content: string, category: string, imageUrl: string, isUrl: string -> bool)
    ensures ValidatePost(title, content, category, imageUrl, isUrl).Success?
        <==> FieldsWithinBounds(title, content, category, imageUrl, isUrl)
  {
    TrimmedLengthZeroIffBlank(title);
    TrimmedLengthZeroIffBlank(content);
  }

  /** A blank title is the message reported first, whatever the other fields hold. */
  lemma ValidatePostBlankTitle(title: string, content: string, category: string, imageUrl: string, isUrl: string -> bool)
    ensures ValidatePost(title, content, category, imageUrl, isUrl) == Failure(TitleEmpty) <==> IsBlank(title)
  {
    TrimmedLengthZeroIffBlank(title);
  }

  /** What the schema keeps of an accepted form: trimmed text, and the image URL untouched. */
  lemma ValidatePostOutput(title: string, content: string, category: string, imageUrl: string, isUrl: string -> bool)
    requires ValidatePost(title, content, category, imageUrl, isUrl).Success?
    ensures var checked := ValidatePost(title, content, category, imageUrl, isUrl).value;
      && checked.title == Trim(title) && checked.title != []
      && checked.content == Trim(content) && checked.content != []
      && (checked.category.None? <==> category == "")
      && (checked.category.Some? ==> checked.category.value == Trim(category))
      && (checked.imageUrl.None? <==> imageUrl == "")
      && (checked.imageUrl.Some? ==> checked.imageUrl.value == imageUrl && isUrl(imageUrl))
  {
    TrimmedLengthZeroIffBlank(title);
    TrimmedLengthZeroIffBlank(content);
  }

  // ---------------------------------------------------------------------------
  // postData
  // ---------------------------------------------------------------------------

  /** The columns `handleSubmit` writes. */
  datatype PostData = PostData(
    title: string,
    content: string,
    category: Option<string>,
    imageUrl: Option<string>,
    published: bool,
    authorId: UserId)

  /** `value || null`: an absent or empty value is saved as null. */
  function OrNull(value: Option<string>): Option<string>
  {
    if value == Some("") then None else value
  }

  /** `postData`: the checked fields, empty values as null, with the switch and the author. */
  function ToPostData(checked: CheckedPost, published: bool, author: UserId): PostData
  {
    PostData(checked.title, checked.content, OrNull(checked.category), OrNull(checked.imageUrl), published, author)
  }

  /**
   * The saved row holds the trimmed title and content; its image is null
   * exactly when the image field is empty and otherwise the URL as typed; its
   * author is always the signed-in user.
   */
  lemma PostDataNormalised(title: string, content: string, category: string, imageUrl: string, isUrl: string -> bool,
                           published: bool, author: UserId)
    requires ValidatePost(title, content, category, imageUrl, isUrl).Success?
    ensures var data := ToPostData(ValidatePost(title, content, category, imageUrl, isUrl).value, published, author);
      && data.title == Trim(title) && data.content == Trim(content)
      && (data.imageUrl.None? <==> imageUrl == "")
      && (data.imageUrl.Some? ==> data.imageUrl.value == imageUrl)
      && data.published == published && data.authorId == author
  {
    ValidatePostOutput(title, content, category, imageUrl, isUrl);
  }

  /** The saved category is null exactly when the category field is blank, and otherwise the trimmed category. */
  lemma PostDataCategory(title: string, content: string, category: string, imageUrl: string, isUrl: string -> bool,
                         published: bool, author: UserId)
    requires ValidatePost(title, content, category, imageUrl, isUrl).Success?
    ensures var data := ToPostData(ValidatePost(title, content, category, imageUrl, isUrl).value, published, author);
      && (data.category.None? <==> IsBlank(category))
      && (data.category.Some? ==> data.category.value == Trim(category))
  {
    var checked := ValidatePost(title, content, category, imageUrl, isUrl).value;
    ValidatePostOutput(title, content, category, imageUrl, isUrl);
    CategoryOrNull(checked.category, category);
  }

  /** `category || undefined`, trimmed, then `|| null`: null exactly for a blank field. */
  lemma CategoryOrNull(checked: Option<string>, category: string)
    requires checked.None? <==> category == ""
    requires checked.Some? ==> checked.value == Trim(category)
    ensures OrNull(checked).None? <==> IsBlank(category)
    ensures OrNull(checked).Some? ==> OrNull(checked).value == Trim(category)
  {
    TrimEmptyIffBlankAt(category);
  }

  /** The row `.insert(postData)` adds, with the id and creation time the server assigns. */
  function NewRow(id: PostId, data: PostData, now: int): BlogPostRow
  {
    BlogPostRow(id, data.title, data.content, data.category, data.imageUrl, Some(data.authorId), data.published, now)
  }

  /** A row with its written columns replaced by `data`; the id and creation time stay. */
  function Overwrite(row: BlogPostRow, data: PostData): BlogPostRow
  {
    row.(title := data.title, content := data.content, category := data.category, imageUrl := data.imageUrl,
         published := data.published, authorId := Some(data.authorId))
  }

  /** `.update(postData).eq('id', id)`: every row with the id is overwritten; a missing id changes nothing. */
  function UpdateRows(table: seq<BlogPostRow>, id: PostId, data: PostData): (r: seq<BlogPostRow>)
    ensures |r| == |table|
  {
    seq(|table|, k requires 0 <= k < |table| => if table[k].id == id then Overwrite(table[k], data) else table[k])
  }

  /**
   * Updating keeps the table's length and order: rows with another id stay as
   * they were, and rows with the id keep their id and creation time and take
   * the new columns.
   */
  lemma UpdateRowsSpec(table: seq<BlogPostRow>, id: PostId, data: PostData)
    ensures |UpdateRows(table, id, data)| == |table|
    ensures forall k :: 0 <= k < |table| && table[k].id != id ==> UpdateRows(table, id, data)[k] == table[k]
    ensures forall k :: 0 <= k < |table| && table[k].id == id ==>
      && UpdateRows(table, id, data)[k].id == id
      && UpdateRows(table, id, data)[k].createdAt == table[k].createdAt
      && UpdateRows(table, id, data)[k] == NewRow(id, data, table[k].createdAt)
    ensures (forall k :: 0 <= k < |table| ==> table[k].id != id) ==> UpdateRows(table, id, data) == table
  {
  }

  /** Saving the same data twice over the same id gives the same table as saving it once. */
  lemma UpdateRowsIdempotent(table: seq<BlogPostRow>, id: PostId, data: PostData)
    ensures UpdateRows(UpdateRows(table, id, data), id, data) == UpdateRows(table, id, data)
  {
    var once := UpdateRows(table, id, data);
    assert forall k :: 0 <= k < |once| ==> UpdateRows(once, id, data)[k] == once[k];
  }

  // ---------------------------------------------------------------------------
  // The form
  // ---------------------------------------------------------------------------

  /** `if (editingId)`: a post is being edited when the id is set and not the empty string. */
  predicate IsEditing(editingId: Option<PostId>)
  {
    editingId.Some? && editingId.value != ""
  }

  /** How `handleSubmit` ends. */
  datatype SaveOutcome = SaveNeedsSignIn | SaveRejected(error: FormError) | SaveFailed | Updated | Created

  /** The editor's form fields, the `blog_posts` table it writes, and the list of posts it shows. */
  class BlogEditorForm {
    var title: string
    var content: string
    var category: string
    var imageUrl: string
    var published: bool
    var editingId: Option<PostId>
    var postTable: seq<BlogPostRow>
    var posts: seq<BlogPostRow>

    /** The state `resetForm` leaves: empty fields, published on, no post being edited. */
    predicate IsReset()
      reads this
    {
      title == "" && content == "" && category == "" && imageUrl == "" && published && editingId == None
    }

    /** The editor opens with a reset form and no posts listed yet. */
    constructor (table: seq<BlogPostRow>)
      ensures IsReset() && postTable == table && posts == []
    {
      title := "";
      content := "";
      category := "";
      imageUrl := "";
      published := true;
      editingId := None;
      postTable := table;
      posts := [];
    }

    /** `resetForm`. */
    method ResetForm()
      modifies this`title, this`content, this`category, this`imageUrl, this`published, this`editingId
      ensures IsReset()
    {
      title := "";
      content := "";
      category := "";
      imageUrl := "";
      published := true;
      editingId := None;
    }

    /** `handleEdit`: loads a post into the form, null category and image as empty fields, and marks it as edited. */
    method HandleEdit(post: BlogPostRow)
      modifies this`title, this`content, this`category, this`imageUrl, this`published, this`editingId
      ensures title == post.title && content == post.content && published == post.published
      ensures category == post.category.GetOr("") && imageUrl == post.imageUrl.GetOr("")
      ensures editingId == Some(post.id)
    {
      title := post.title;
      content := post.content;
      category := post.category.GetOr("");
      imageUrl := post.imageUrl.GetOr("");
      published := post.published;
      editingId := Some(post.id);
    }

    /** `fetchPosts`: every post, published or not, newest first; a failed request keeps the list. */
    method FetchPosts(queryOk: bool)
      modifies this`posts
      ensures queryOk ==> posts == Seqs.SortDescending(postTable, (p: BlogPostRow) => p.createdAt)
      ensures !queryOk ==> posts == old(posts)
    {
      if queryOk {
        posts := Seqs.SortDescending(postTable, (p: BlogPostRow) => p.createdAt);
      }
    }

    /**
     * `handleSubmit`. `isUrl` is the schema's URL check, `serverOk` whether the
     * write succeeded, `newId` and `now` the id and time the server gives an
     * inserted row. The post being edited is updated, otherwise a row is
     * inserted; a successful save resets the form. Without a user, with a
     * rejected form or a failed write, nothing changes.
     */
    method HandleSubmit(user: Option<UserId>, isUrl: string -> bool, serverOk: bool, newId: PostId, now: int)
      returns (outcome: SaveOutcome)
      modifies this`title, this`content, this`category, this`imageUrl, this`published, this`editingId, this`postTable
      ensures var check := ValidatePost(old(title), old(content), old(category), old(imageUrl), isUrl);
        && (user.None? ==> outcome == SaveNeedsSignIn)
        && (user.Some? && check.Failure? ==> outcome == SaveRejected(check.error))
        && (user.Some? && check.Success? ==>
              outcome == if !serverOk then SaveFailed else if IsEditing(old(editingId)) then Updated else Created)
      ensures outcome == Updated ==>
        var data := ToPostData(ValidatePost(old(title), old(content), old(category), old(imageUrl), isUrl).value,
                               old(published), user.value);
        postTable == UpdateRows(old(postTable), old(editingId).value, data) && IsReset()
      ensures outcome == Created ==>
        var data := ToPostData(ValidatePost(old(title), old(content), old(category), old(imageUrl), isUrl).value,
                               old(published), user.value);
        postTable == old(postTable) + [NewRow(newId, data, now)] && IsReset()
      ensures !outcome.Updated? && !outcome.Created? ==> unchanged(this)
    {
      if user.None? {
        return SaveNeedsSignIn;
      }
      var check := ValidatePost(title, content, category, imageUrl, isUrl);
      if check.Failure? {
        return SaveRejected(check.error);
      }
      if !serverOk {
        return SaveFailed;
      }
      var data := ToPostData(check.value, published, user.value);
      if IsEditing(editingId) {
        postTable := UpdateRows(postTable, editingId.value, data);
        outcome := Updated;
      } else {
        postTable := postTable + [NewRow(newId, data, now)];
        outcome := Created;
      }
      ResetForm();
    }
  }
}
