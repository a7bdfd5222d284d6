# family-circle client logic in Dafny

This project models the client-side data handling of the family-circle web
app's polls and blog pages. Everything else in the app is remote I/O and
rendering. The model covers four source files:

- **Polls page** (`src/pages/Polls.tsx`):
  - the effect that folds the `poll_votes` rows into per-poll, per-option
    counts and the signed-in user's own choice per poll;
  - `getTotalVotes` and `getVotePercentage`;
  - the options cast of `fetchPolls`;
  - `handleCreatePoll`'s checks and insert;
  - the admin's option list, which never drops below two entries.
- **Blog listing** (`src/pages/Blog.tsx`):
  - `getExcerpt`, which strips tags with `/<[^>]*>/g` and then truncates;
  - the listing query, which keeps published posts, optionally filters by
    category and orders newest first;
  - the per-post like and comment counts;
  - the category buttons, built from `Array.from(new Set(...))`.
- **Single post page** (`src/pages/BlogPost.tsx`):
  - `commentSchema`;
  - loading the post through `.single()`;
  - `fetchLikes`, `handleLike`, `fetchComments`, `handleSubmitComment` and
    `handleDeleteComment`;
  - the rule that decides who sees a delete button.
- **Blog editor** (`src/components/BlogEditor.tsx`):
  - `blogPostSchema`;
  - the normalisation into `postData`;
  - the choice between update and insert;
  - `resetForm` and `handleEdit`.

Layout, one module per concern:

| file | module | holds |
|---|---|---|
| `wrappers.dfy` | `Wrappers` | `Option` and `Result` |
| `seqs.dfy` | `Seqs` | subsequences, `filter`, JS `Set` order and the newest-first order |
| `js_text.dfy` | `JsText` | `String.prototype.trim` and UTF-16 `length` |
| `tables.dfy` | `Tables` | the blog table rows and the per-post row queries |
| `polls.dfy` | `Polls` | the polls page |
| `blog.dfy` | `Blog` | the blog listing |
| `blog_post.dfy` | `BlogPostPage` | the single post page |
| `blog_editor.dfy` | `BlogEditor` | the editor |

Modelling conventions:

- **Component state.** React state that a handler changes becomes a class
  whose fields the methods assign: `PollForm`, `BlogListing`, `BlogPostView`
  and `BlogEditorForm`.
- **Tables.** Each hosted table that a page writes is a field of the page's
  class: `polls`, `blog_likes`, `blog_comments` and `blog_posts`. This lets
  every write, and every re-fetch that follows it, be stated.
- **Remote calls.** A remote call's success is a `bool` parameter such as
  `serverOk`, `queryOk` or `inserted`, so the failure branches (a toast and no
  change) are modelled. Ids and timestamps assigned by the server are
  parameters too.
- **Pure computations** are functions, and the lemmas beside them state their
  properties.
- **Lengths.** The length checks of the schemas use JavaScript's
  `String.length`, which counts UTF-16 code units (`JsText.Utf16Length`).
- **Trimming.** Trimming uses the ECMAScript whitespace and line-terminator
  set (`JsText.IsWhitespace`).

Vote totals: the aggregation loop (src/pages/Polls.tsx:84-93) does no range
check on `option_index`, and `getTotalVotes` (src/pages/Polls.tsx:216-219)
sums every count, so a row for an option index the poll does not have still
counts toward the poll's total. `Polls.TotalMatchesRows` and
`Polls.OutOfRangeRowCounted` state this.

## Model

| member | source | states |
|---|---|---|
| Polls.AggregateVotes | src/pages/Polls.tsx:80-97 | The loop over the vote rows yields exactly the fold of `CountVote` and `RecordUserVote` over the rows in list order (`CountAll`, `UserVotesOf`). |
| Polls.CountMatchesRows | src/pages/Polls.tsx:84-88 | After aggregation, the count of poll p and option i is the number of rows with that poll and index. p has an entry exactly when some row is for p. |
| Polls.TotalMatchesRows | src/pages/Polls.tsx:216-219 | A poll's total is the number of its rows. This includes rows whose index is not an option. A poll without rows has total 0. |
| Polls.SumValuesRemove | src/pages/Polls.tsx:218 | The sum of a poll's counts does not depend on the order in which the values are added. |
| Polls.SumValuesIncrement | src/pages/Polls.tsx:88 | Adding one vote to an option, whether or not it had an entry, adds one to the poll's sum. |
| Polls.CountAtMostTotal | src/pages/Polls.tsx:222-224 | An option's count never exceeds its poll's total. |
| Polls.RoundedPercent | src/pages/Polls.tsx:223-225 | The result is 0 for a zero total. Otherwise it is the integer nearest to 100·count/total, rounding halves up. It is at most 100 when count ≤ total. |
| Polls.DivisionBounds | src/pages/Polls.tsx:225 | Proof step of `Polls.RoundedPercent`, not a model of the source: a Euclidean quotient lies between consecutive multiples of the divisor, which brackets the rounded percentage. |
| Polls.CancelFactor | src/pages/Polls.tsx:225 | Proof step of `Polls.RoundedPercent`, not a model of the source: a common positive factor cancels from a strict inequality, which gives its upper bound of 100. |
| Polls.VotePercentage | src/pages/Polls.tsx:221-226 | `getVotePercentage` is 0 whenever the poll's total is 0, and never exceeds 100. |
| Polls.VenueExample | src/pages/Polls.tsx:221-226 | Votes 0, 0, 1 on a two-option poll give counts 2 and 1, total 3, and percentages 67 and 33. |
| Polls.OutOfRangeRowCounted | src/pages/Polls.tsx:88 | A row for option 5 of a two-option poll counts towards the total. One vote for option 0 then shows 50%. |
| Polls.RowsAppend | src/pages/Polls.tsx:84-88 | Appending a row adds one to the reference row counts of its poll and option and to nothing else. |
| Polls.HasVotedIffOwnRow | src/pages/Polls.tsx:346 | `hasVoted` holds exactly when a user is signed in and some row for the poll carries their id. |
| Polls.LastOwnRowWins | src/pages/Polls.tsx:90-92 | The recorded choice is the option of the user's last row for the poll, in list order. |
| Polls.CastPoll | src/pages/Polls.tsx:118 | An array of options is kept as it is, and any other JSON value becomes the empty list. Every other column is kept. |
| Polls.LoadPolls | src/pages/Polls.tsx:116-119 | One poll per returned row, in the same order. Non-array options become `[]`. |
| Polls.NonBlankOptions | src/pages/Polls.tsx:143 | The non-blank options, untrimmed, in their original order. Each keeps its multiplicity and no blank option remains. |
| Polls.CheckNewPollOutcomes | src/pages/Polls.tsx:137-152 | No user means sign-in. A blank question or fewer than two non-blank options means rejection. Otherwise the row to insert holds the question as typed, the non-blank options and the user's id. |
| Polls.PollForm.constructor | src/pages/Polls.tsx:46-47 | The form starts with an empty question and two empty options. |
| Polls.PollForm.AddOption | src/pages/Polls.tsx:228-230 | Appends one empty option and keeps at least two. |
| Polls.PollForm.RemoveOption | src/pages/Polls.tsx:232-236 | With at most two options it does nothing. Otherwise it removes exactly the entry at the index and keeps the rest in order, so the list never drops below two. |
| Polls.PollForm.UpdateOption | src/pages/Polls.tsx:238-242 | Replaces only the entry at the index. The length stays the same. |
| Polls.PollForm.CreatePoll | src/pages/Polls.tsx:137-184 | Only a checked poll that the database accepted is added to `polls`, after which the form resets. Sign-in, rejection and a failed insert change nothing. |
| JsText.TrimStart | src/pages/Polls.tsx:143 | Leading whitespace is removed, and what is removed is all whitespace. |
| JsText.TrimEnd | src/pages/Polls.tsx:143 | Trailing whitespace is removed, and what is removed is all whitespace. |
| JsText.LeadingBlanks | src/pages/Polls.tsx:143 | The part that trimming removes from the front is whitespace and ends before a non-whitespace character. |
| JsText.Trim | src/pages/Polls.tsx:145 | `trim` returns the infix that neither starts nor ends with whitespace and is surrounded only by whitespace. |
| JsText.InfixOfSuffix | src/pages/Polls.tsx:145 | A prefix of a suffix is the corresponding infix. This is the slicing step behind `Trim`. |
| JsText.TrimEmptyIffBlankAt | src/pages/Polls.tsx:145 | `s.trim() === ""` holds exactly when `s` is all whitespace. |
| JsText.TrimEmptyIffBlank | src/pages/Polls.tsx:143 | The same, for every string at once. |
| JsText.TrimmedLengthZeroIffBlank | src/pages/BlogPost.tsx:17-19 | The trimmed text has no code units exactly when the input is blank. |
| JsText.TrimIdempotent | src/pages/BlogPost.tsx:17-18 | Trimming twice gives the same result as trimming once. |
| JsText.Utf16Length | src/pages/BlogPost.tsx:19-20 | `length` lies between the number of characters and twice that number. It equals the number of characters exactly when no character lies outside the Basic Multilingual Plane. |
| Seqs.Filter | src/pages/Polls.tsx:143 | `filter` keeps the passing elements in order, each with its multiplicity, and drops the rest. |
| Seqs.SubsequenceOfSuffix | src/pages/Blog.tsx:98 | A subsequence of a suffix is a subsequence of the whole sequence. |
| Seqs.SubsequenceElements | src/pages/Blog.tsx:98 | Every element of a subsequence occurs in the original sequence. |
| Seqs.SubsequencePrefix | src/pages/Blog.tsx:99-100 | A prefix of a subsequence is again a subsequence. |
| Seqs.FilterNone | src/pages/BlogPost.tsx:109-114 | A filter that nothing passes returns the empty list. |
| Seqs.FilterSingle | src/pages/BlogPost.tsx:109-114 | A filter that exactly one element passes returns just that element. |
| Seqs.FirstIndex | src/pages/Blog.tsx:81-83 | The position of the first occurrence of a value. |
| Seqs.Distinct | src/pages/Blog.tsx:81-83 | `Array.from(new Set(xs))` holds the same values as `xs`, without duplicates. |
| Seqs.FirstIndexAppend | src/pages/Blog.tsx:81-83 | Appending an element does not move the first occurrence of a value that is already present. |
| Seqs.DistinctFirstOccurrenceOrder | src/pages/Blog.tsx:81-83 | The values are listed in the order of their first occurrence. |
| Seqs.DistinctOfConstant | src/pages/Blog.tsx:81-83 | A list that repeats one value yields that value once. |
| Seqs.DescendingHead | src/pages/Blog.tsx:46 | In a newest-first list, the head is at least as new as every later row. |
| Seqs.ConsDescending | src/pages/Blog.tsx:46 | A row at least as new as the head of a newest-first list can go in front of it. |
| Seqs.InsertByKey | src/pages/Blog.tsx:46 | Inserting into a newest-first list keeps it newest first and adds exactly the new row. |
| Seqs.SortDescending | src/pages/Blog.tsx:46 | `.order('created_at', { ascending: false })` returns the same rows, newest first. |
| Tables.LikesOn | src/pages/Blog.tsx:60-63 | The like rows with the post id, and only those. |
| Tables.CommentsOn | src/pages/BlogPost.tsx:133-136 | The comment rows with the post id, in table order. Every such row is included. |
| Blog.CloseIndex | src/pages/Blog.tsx:98 | The first `>` at or after a position. |
| Blog.StripTags | src/pages/Blog.tsx:98 | The global replace never lengthens the text. |
| Blog.StripTagsSubsequence | src/pages/Blog.tsx:98 | The stripped text is a subsequence of the content. |
| Blog.StripTagsLeavesNoTag | src/pages/Blog.tsx:98 | No `<` of the stripped text is followed later by a `>`. One pass removes every closable tag. |
| Blog.StripTagsKeepsTagFreeText | src/pages/Blog.tsx:98 | Text in which no tag can be closed is returned unchanged. |
| Blog.StripTagsIdempotent | src/pages/Blog.tsx:98 | Stripping twice gives the same result as stripping once. |
| Blog.StripTagsRemovesTag | src/pages/Blog.tsx:98 | A complete `<...>` span disappears together with everything inside it. The text before it, which opens no tag, is kept. |
| Blog.ExcerptShape | src/pages/Blog.tsx:97-102 | Short text is shown whole. Longer text is its first maxLength characters plus "...", maxLength+3 in all. The text part is a tag-free subsequence of the content. |
| Blog.PresentCategoriesMembers | src/pages/Blog.tsx:82 | `map(category).filter(Boolean)` holds exactly the non-empty categories set on some post. |
| Blog.UniqueCategoriesSpec | src/pages/Blog.tsx:81-84 | The buttons show every non-empty category of the fetched posts once, in order of first use. |
| Blog.SingleCategoryButtons | src/pages/Blog.tsx:81-84 | Posts that all share one category give that single button, or none. |
| Blog.ChosenCategoryNarrowsButtons | src/pages/Blog.tsx:48-50 | After a category is chosen, the buttons are built from the filtered posts. They shrink to that category alone, or to none. |
| Blog.ListingQuerySpec | src/pages/Blog.tsx:42-50 | The listing holds exactly the published rows of the chosen category, if any, each as often as in the table, newest first. |
| Blog.AttachCounts | src/pages/Blog.tsx:57-76 | Same posts, same order. Each post carries its count query's number, or 0 when the count is null. |
| Blog.AttachCountsFromTables | src/pages/Blog.tsx:59-74 | Counted against the tables, each card shows the number of like and comment rows of its post. |
| Blog.BlogListing.constructor | src/pages/Blog.tsx:31-34 | The page starts loading, with no posts, no buttons and no category chosen. |
| Blog.BlogListing.SelectCategory | src/pages/Blog.tsx:132-143 | A category button or "All" sets the filter. |
| Blog.BlogListing.FetchPosts | src/pages/Blog.tsx:40-95 | On success the page holds the listing with its counts and the buttons. On failure both are kept. Loading ends either way. |
| BlogPostPage.ValidateCommentSpec | src/pages/BlogPost.tsx:16-21 | A comment is accepted exactly when it is not blank and its trimmed text is at most 1000 code units. The trimmed text is what is saved. |
| BlogPostPage.ValidateCommentErrors | src/pages/BlogPost.tsx:16-21 | Blank input is reported as empty. Only non-blank input over 1000 units is reported as too long. |
| BlogPostPage.ValidateCommentIgnoresPadding | src/pages/BlogPost.tsx:17-18 | Surrounding whitespace changes neither the verdict nor the saved text. |
| BlogPostPage.SameTrimSameVerdict | src/pages/BlogPost.tsx:16-21 | The schema depends on the trimmed text only. |
| BlogPostPage.ToggleLike | src/pages/BlogPost.tsx:199-216 | When the post is shown as liked, the user's row goes. Otherwise the row is added. No other row changes. |
| BlogPostPage.ToggleTwiceRestores | src/pages/BlogPost.tsx:199-216 | From a consistent state, liking and then unliking, or the reverse, restores the like table. |
| BlogPostPage.ToggleLikeCount | src/pages/BlogPost.tsx:199-216 | From a consistent state, a toggle moves the post's like count by exactly one and leaves other posts' likes alone. |
| BlogPostPage.CanDeleteSpec | src/pages/BlogPost.tsx:450 | Admins see the delete control on every comment, signed-in members on their own comments only, and signed-out visitors on none. |
| BlogPostPage.CommentsForPostSpec | src/pages/BlogPost.tsx:133-137 | The listed comments are exactly the post's rows, each as often as in the table, newest first. |
| BlogPostPage.WithoutCommentSpec | src/pages/BlogPost.tsx:281-284 | Deletion removes every row with the id and keeps the other rows in order. |
| BlogPostPage.PostedCommentListed | src/pages/BlogPost.tsx:253-257 | A posted comment is in the list fetched afterwards. |
| BlogPostPage.DeletedCommentGone | src/pages/BlogPost.tsx:281-284 | A deleted comment is absent from the list fetched afterwards. |
| BlogPostPage.LoadPostSound | src/pages/BlogPost.tsx:109-125 | Only a published row with the requested id is ever shown, and only after a successful request. Without such a row the visitor goes back to the blog. |
| BlogPostPage.LoadPostUniqueRow | src/pages/BlogPost.tsx:109-117 | A single published row with the id is loaded when the request succeeds. |
| BlogPostPage.BlogPostView.constructor | src/pages/BlogPost.tsx:49-55 | The page opens loading, with no post, no comments, a like count of 0 and an empty comment box. |
| BlogPostPage.BlogPostView.FetchPost | src/pages/BlogPost.tsx:107-129 | The post becomes the loaded row. A failure keeps it as it was and sends the visitor back. Loading ends either way. It keeps `Valid()`: the listed comments belong to the post and are newest first. |
| BlogPostPage.BlogPostView.FetchLikes | src/pages/BlogPost.tsx:163-186 | The count is the number of like rows of the post. `hasLiked` is whether the user's row exists, and is left alone when no one is signed in. A failed count changes nothing. It keeps `Valid()`: the listed comments belong to the post and are newest first. |
| BlogPostPage.BlogPostView.HandleLike | src/pages/BlogPost.tsx:188-225 | Without a user nothing changes. Otherwise a successful request toggles the user's row according to `hasLiked`. The count waits for the re-fetch. It keeps `Valid()`: the listed comments belong to the post and are newest first. |
| BlogPostPage.BlogPostView.HandleSubmitComment | src/pages/BlogPost.tsx:227-277 | Without a user, on a rejected comment or on a failed insert, nothing changes. Otherwise the trimmed comment is appended with the server's id and time, and the box is cleared. It keeps `Valid()`: the listed comments belong to the post and are newest first. |
| BlogPostPage.BlogPostView.FetchComments | src/pages/BlogPost.tsx:131-161 | On success the list is the post's comments, newest first. On failure it is kept. |
| BlogPostPage.BlogPostView.HandleDeleteComment | src/pages/BlogPost.tsx:279-300 | The page checks no permission. Rows with the id go when the server accepts the request. It keeps `Valid()`: the listed comments belong to the post and are newest first. |
| BlogEditor.ValidatePostSpec | src/components/BlogEditor.tsx:15-29 | The schema accepts exactly when: the trimmed title holds 1..200 code units; the trimmed content holds 1..50000; the trimmed category holds at most 50; and the image URL is empty or a URL. |
| BlogEditor.ValidatePostBlankTitle | src/components/BlogEditor.tsx:16-19 | A blank title is the first message reported, whatever the other fields hold. |
| BlogEditor.ValidatePostOutput | src/components/BlogEditor.tsx:93-98 | Parsed title and content are trimmed and non-empty. The category is trimmed and absent only for an empty field. The image URL is kept as typed and absent only for an empty field. |
| BlogEditor.PostDataNormalised | src/components/BlogEditor.tsx:112-119 | The saved title and content are trimmed. The image is null exactly for an empty field. `published` is the switch and `author_id` is the signed-in user. |
| BlogEditor.PostDataCategory | src/components/BlogEditor.tsx:115 | The saved category is null exactly for a blank category field, and otherwise the trimmed category. |
| BlogEditor.CategoryOrNull | src/components/BlogEditor.tsx:96 | An empty category field becomes absent, a present one is trimmed, and an empty result becomes null. The saved value is null exactly for a blank field. |
| BlogEditor.UpdateRows | src/components/BlogEditor.tsx:122-125 | An update keeps the number of rows. |
| BlogEditor.UpdateRowsSpec | src/components/BlogEditor.tsx:122-125 | Rows with other ids are unchanged. Rows with the id keep their id and creation time and take the new columns. An unknown id changes nothing. |
| BlogEditor.UpdateRowsIdempotent | src/components/BlogEditor.tsx:122-125 | Saving the same data twice over the same id gives the same table as saving it once. |
| BlogEditor.BlogEditorForm.constructor | src/components/BlogEditor.tsx:44-51 | The editor opens with a reset form and no posts listed. |
| BlogEditor.BlogEditorForm.ResetForm | src/components/BlogEditor.tsx:71-78 | All text fields are empty, `published` is on and no post is being edited. |
| BlogEditor.BlogEditorForm.HandleEdit | src/components/BlogEditor.tsx:160-168 | Title, content and `published` are copied from the post. A null category or image becomes "". The post's id becomes `editingId`. |
| BlogEditor.BlogEditorForm.FetchPosts | src/components/BlogEditor.tsx:57-69 | On success the list is every post, published or not, newest first. On failure it is kept. |
| BlogEditor.BlogEditorForm.HandleSubmit | src/components/BlogEditor.tsx:80-158 | Without a user, on a rejected form or on a failed write, nothing changes. A set `editingId` updates that post, and otherwise a new row is inserted. After a successful save the form is reset. |

## Left out

- Remote I/O: every Supabase call is replaced by the in-memory table fields and a success flag. This covers select, insert, update, delete, count queries and `.single()`. Authorization enforced by the server is not modelled.
- Realtime channels (src/pages/BlogPost.tsx:66-105, src/pages/Polls.tsx:57-77): their only effect is to call a fetch method again, which the model exposes as a method.
- The refetch fired without `await` after a successful save (`fetchPosts()` at src/components/BlogEditor.tsx:147, `fetchPolls()` at src/pages/Polls.tsx:183): `BlogEditor.BlogEditorForm.HandleSubmit` and `Polls.PollForm.CreatePoll` describe the state when the handler returns, and the refetch is the separate `FetchPosts` / `LoadPolls` step.
- `Promise.all` fan-outs (src/pages/Blog.tsx:57-76, src/pages/BlogPost.tsx:142-155): modelled as a sequential map.
- The profile lookup attached to each comment: omitted, and the listed comments are the comment rows themselves.
- Polls.RoundedPercent: `Math.round` of the floating-point quotient is modelled as exact half-up rounding. Where 100·count/total is a half, IEEE rounding could give a different integer.
- Blog.ExcerptShape: `maxLength` is a natural number. The cut counts characters, not UTF-16 code units, so text outside the Basic Multilingual Plane could be cut at a different place.
- Seqs.SortDescending: rows with equal `created_at` come back in an order the server does not specify. The model fixes one order and states only the descending order and the multiset.
- `created_at` timestamps are integers. A null `published` column is read as `false`.
- Tables.LikesOn: the like table is a set of (post, user) pairs, so duplicate like rows cannot be represented.
- BlogPostPage.BlogPostView.FetchLikes: the count query always returns a number against the in-memory table, so the `count || 0` fallback for a null count is not reached.
- `handleVote` (src/pages/Polls.tsx:186-214): a single insert with no client-side logic.
- `fetchVotes` (src/pages/Polls.tsx:124-135): a plain select. The vote rows are the input of `AggregateVotes`.
- The editor's `handleDelete` (src/components/BlogEditor.tsx:170-195): it depends on a browser `confirm` dialog and is a single delete.
- Polls.PollForm.UpdateOption: requires an index within the list, since the page only passes the index of an existing input.
- Toasts, navigation to `/auth`, `submitting`/`isCreating` flags, `toLocaleDateString`, scrolling and all rendering.
- Zod's `.url()` check is the parameter `isUrl` and is not modelled further.
