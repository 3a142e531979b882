# News-site model layer in Dafny

This project models the model layer of a small news-site API: articles, their
comments, topics and users, kept in four Postgres tables. The layer is
`mvc/models/articles.models.js`, `mvc/models/topics.models.js` and
`mvc/models/users.models.js`. Their reads and writes become Dafny members over
an in-memory copy of those tables:

- `Tables` holds the rows, one snapshot of the store (`Db`) and the errors.
  `BadRequest` is status 400, `NotFound` is 404, and `DbError` stands for a
  statement the database refuses.
  It also holds `Value`, a JSON request-body value as far as JavaScript
  truthiness and `typeof` tell kinds apart.
- `Ordering` holds what `ORDER BY`, `LIMIT` and `OFFSET` do: text order on
  code points, a stable insertion sort proved sorted and a permutation, the
  primary-key scan order, and the cut of one page.
- `ArticleQueries` holds the reads as functions of one snapshot:
  - `checkExists`, over a closed enumeration of the four (table, column)
    pairs it is used with;
  - `fetchArticleById`, with its live `comment_count`;
  - the allow-lists and defaults of `fetchArticles`, and its filtered,
    sorted, paginated listing with `total_count`;
  - `fetchComments`.
- `ArticleChanges` holds each write as a function from the snapshot before
  to the snapshot after. Lemmas say what the reads see afterwards: votes
  accumulate, comment counts move by one, new rows are fetched and listed,
  and a deleted article can no longer be reached.
- `ArticleStore` holds the class `Store`, whose fields are the tables and
  the two id sequences. Its six write methods check their input, run their
  existence checks in the source's order, and then change one table. Each
  method's contract ties the new state to the matching `ArticleChanges`
  function and leaves the store unchanged on every error.
- `TopicsModels` holds `selectTopics` and `postNewTopic`.
- `UsersModels` holds `fetchUsers` and `fetchUserByUsername`.

Inputs take typed forms:

- A path id is `Option<int>`. `None` means an id that is missing (or, for
  `fetchComments`, not a number). Any given id is non-empty path text and
  therefore truthy, so `Some(0)` goes on to the existence check.
- A vote delta is `Option<int>`, a JSON number. A delta of 0 is falsy and
  rejected.
- `limit` is `Option<int>`. A missing or empty limit is falsy and is
  `None`, which gives the default of 10. Any other text is `Some` of its
  `parseInt`, and non-empty text that does not parse is represented by any
  number outside the page sizes.
- `page` is an integer of at least 1. The model layer gives it no default.
- The body fields of `postArticle` and `postNewTopic` are `Value`s.

The clock (`created_at`) is a parameter `now`. Fresh ids come from the
`Store`'s sequence counters.

Where the code and the documented intent differ, the model follows the code.
The `sort_by` allow-list names only `author`, `title`, `topic`, `votes` and
`comment_count`. An explicit `sort_by=created_at` or `sort_by=article_id` is
therefore a bad request, although `created_at` is the default ordering.

## Model

| member | source | states |
|---|---|---|
| Tables.Truthy | mvc/models/articles.models.js:283 | definition: JavaScript truthiness of a request-body value, the test `if (x)` and `!x` apply (also mvc/models/topics.models.js:9) |
| Tables.IsText | mvc/models/articles.models.js:262-270 | definition: a value passes both `!x` and `typeof x !== "string"` exactly when it is a non-empty string (also mvc/models/topics.models.js:9) |
| Tables.Filled | mvc/models/articles.models.js:169 | definition: a present, non-empty text parameter, the truthiness test on author, body, order, sort_by and topic (:59, :65, :84) |
| ArticleQueries.HasRow | mvc/models/articles.models.js:5-7 | definition: some row of the named table holds the value in the named column, the WHERE column = $1 match |
| ArticleQueries.KeyPresent | mvc/models/articles.models.js:5-7 | definition: the same match as a lookup by the table's key |
| ArticleQueries.ListingRequestValid | mvc/models/articles.models.js:59-90 | definition: order, sort_by and limit pass their allow-lists and a truthy topic is a stored slug |
| ArticleQueries.ColumnName | mvc/models/articles.models.js:66 | definition: the column name ORDER BY is given for each sort key |
| Ordering.LexLe | mvc/models/articles.models.js:66 | definition: ascending text order on code points, for the text columns ORDER BY sorts |
| ArticleQueries.CheckExists | mvc/models/articles.models.js:4-11 | passes exactly when some row of the named table has the value in the named column, and otherwise fails with 404 |
| ArticleQueries.KeyPresentIffHasRow | mvc/models/articles.models.js:5-7 | looking a key up in a table filed by that key finds a row exactly when some row holds the value in that column |
| ArticleQueries.FirstMissing | mvc/models/articles.models.js:176-180 | a chain of existence checks rejects at the first missing row, after all earlier rows were found; it passes only when every row exists |
| ArticleQueries.CommentIdsOf | mvc/models/articles.models.js:23-25 | definition: the ids of the comments whose article_id matches, the rows the LEFT JOIN pairs with the article |
| ArticleQueries.CommentCount | mvc/models/articles.models.js:23 | definition: COUNT(comments.comment_id), the number of those comments |
| ArticleQueries.NoCommentsIffZero | mvc/models/articles.models.js:23-25 | the live comment count of an article is 0 exactly when no comment refers to it |
| ArticleQueries.FetchArticleById | mvc/models/articles.models.js:13-37 | 404 exactly for an absent id; otherwise the stored row with that id and a comment_count equal to the number of comments whose article_id is that id, 0 exactly when none refers to it |
| ArticleQueries.ParseSort | mvc/models/articles.models.js:65-69 | a missing or empty sort_by orders by created_at; a given one is accepted exactly when it is in the five-column allow-list and then orders by that column; anything else is 400 |
| ArticleQueries.UpperChar | mvc/models/articles.models.js:59 | definition: the upper case of a-z and of the long s U+017F; every other character unchanged |
| ArticleQueries.ToUpper | mvc/models/articles.models.js:59 | definition: the character-by-character upper case, same length; what it reads as ASC or DESC is stated by the two lemmas below |
| ArticleQueries.UpperIsAsc | mvc/models/articles.models.js:59 | a text's upper case is ASC exactly when it has three characters a/A, s/S/long s, c/C in that order |
| ArticleQueries.UpperIsDesc | mvc/models/articles.models.js:59 | a text's upper case is DESC exactly when it has four characters d/D, e/E, s/S/long s, c/C in that order |
| ArticleQueries.ParseOrder | mvc/models/articles.models.js:54-63 | a missing or empty order means DESC; a given order gives ASC or DESC exactly when its upper case reads that word; anything else is 400 |
| ArticleQueries.ParseLimit | mvc/models/articles.models.js:73-79 | a missing limit is 10; a given one is accepted exactly when it is one of 5, 10, 20, 50, 100 or 250 and is then used as is; anything else is 400 |
| ArticleQueries.OrderIsTotalPreorder | mvc/models/articles.models.js:56-71 | each ORDER BY key, ascending or descending, compares any two rows and is transitive |
| ArticleQueries.KeyLe | mvc/models/articles.models.js:56-66 | definition: ascending ORDER BY on one key column; text columns by code point, numbers numerically |
| ArticleQueries.Order | mvc/models/articles.models.js:71 | definition: the chosen key ascending, or the same key reversed for DESC |
| ArticleQueries.MatchingIds | mvc/models/articles.models.js:92 | definition: the ids of all articles, or of those whose topic is the filter (WHERE topic = $1); also what COUNT(*) counts at :101 and :118 |
| ArticleQueries.Summarize | mvc/models/articles.models.js:40-48 | definition: the selected columns of one article (every column but body) and its live comment_count |
| ArticleQueries.TopicFilter | mvc/models/articles.models.js:84 | definition: a topic filters the listing only when it is truthy |
| ArticleQueries.Listing | mvc/models/articles.models.js:40-50 | one summary per matching article, each with its live comment_count and no body, and every matching article listed, sorted on the chosen key and direction |
| ArticleQueries.ScanArticles | mvc/models/articles.models.js:24-25 | the matching articles, each summarised once, none left out |
| ArticleQueries.FetchArticles | mvc/models/articles.models.js:39-129 | 400 exactly when the order, sort column or page size is off its list, or the topic is not a slug; otherwise at most limit rows taken from offset (page-1)*limit of the sorted filtered listing, a full page when one fits, the remainder on the last page, nothing past the end, and a total_count equal to the whole filtered listing |
| ArticleQueries.FetchArticlesTopicOnly | mvc/models/articles.models.js:84-94 | a request with a valid topic succeeds, and every returned row is of that topic |
| ArticleQueries.FetchArticlesUnfilteredTotal | mvc/models/articles.models.js:112-118 | a valid request without a topic succeeds with total_count equal to the number of all articles |
| ArticleQueries.PageRowsMatch | mvc/models/articles.models.js:92-98 | every row of a page is the live summary of an article that passes the topic filter |
| ArticleQueries.ListingPage | mvc/models/articles.models.js:95-110 | the page is the rows of the sorted listing from offset (page-1)*limit on: a full page when one fits, the remainder on the last page, nothing past the end; still sorted; total_count ignores limit and page |
| ArticleQueries.CommentListing | mvc/models/articles.models.js:154 | exactly the stored comments of one article, as many as its comment count, newest first |
| ArticleQueries.NewestFirst | mvc/models/articles.models.js:154 | definition: ORDER BY created_at DESC as a comparison |
| ArticleQueries.ScanComments | mvc/models/articles.models.js:154 | exactly the stored comments of one article, each once, as many as its comment count |
| ArticleQueries.FetchComments | mvc/models/articles.models.js:131-166 | 400 for a non-numeric id first, then 400 for a bad limit, then 404 exactly for an absent article; otherwise the article's comments, newest first, from offset (page-1)*limit on: a full page when one fits, the remainder on the last page, nothing past the end, and none when it has none |
| ArticleQueries.CommentPage | mvc/models/articles.models.js:149-157 | the rows of the article's newest-first comment listing from offset (page-1)*limit on: at most limit, a full page when one fits, the remainder on the last page, nothing past the end; stored as returned and created_at non-increasing |
| Ordering.LexLeTotal | mvc/models/articles.models.js:66 | any two texts compare under the text order ORDER BY uses |
| Ordering.LexLeTransitive | mvc/models/articles.models.js:66 | the text order is transitive |
| Ordering.Insert | mvc/models/articles.models.js:71 | inserting a row into a list adds exactly that row |
| Ordering.InsertSorted | mvc/models/articles.models.js:71 | inserting into a sorted list keeps it sorted |
| Ordering.Sort | mvc/models/articles.models.js:71 | the sorted rows are a permutation of the input rows |
| Ordering.SortKeepsRows | mvc/models/articles.models.js:71 | a row is in the sorted list exactly when it is in the input |
| Ordering.SortSorted | mvc/models/articles.models.js:71 | the sort's result is sorted under any total preorder |
| Ordering.HasMinimum | mvc/models/articles.models.js:24 | every non-empty set of primary keys has a least key |
| Ordering.Least | mvc/models/articles.models.js:24 | the least primary key of a non-empty set |
| Ordering.SortedIds | mvc/models/articles.models.js:24 | a table's keys listed once each in strictly increasing order |
| Ordering.Offset | mvc/models/articles.models.js:81 | definition: the OFFSET (page-1)*limit, also used at :149 |
| Ordering.Paginate | mvc/models/articles.models.js:81-82 | LIMIT/OFFSET: at most limit rows, copied in order from offset (page-1)*limit; empty past the end, full when a full page fits, and the remainder on the last page |
| Ordering.PageHolds | mvc/models/articles.models.js:81 | the row at position k of a list appears on page k/limit+1, at position k mod limit |
| Ordering.PageOfSorted | mvc/models/articles.models.js:82 | a page of a sorted list is sorted |
| ArticleChanges.ImageUrl | mvc/models/articles.models.js:283-294 | a falsy image leaves the table default, and a non-empty string image is stored as given |
| ArticleChanges.AddArticleVotes | mvc/models/articles.models.js:201-211 | the article's votes become the stored votes plus the delta; no other column or row changes |
| ArticleChanges.AddCommentVotes | mvc/models/articles.models.js:243-253 | the comment's votes become the stored votes plus the delta; no other column or row changes |
| ArticleChanges.InsertCommentRow | mvc/models/articles.models.js:182-186 | one new comment row is added and every other row is kept |
| ArticleChanges.RemoveCommentRow | mvc/models/articles.models.js:226-228 | the comment is gone and every other row is kept |
| ArticleChanges.InsertArticleRow | mvc/models/articles.models.js:278-302 | one new article row is added and every other row is kept |
| ArticleChanges.RemoveArticleRow | mvc/models/articles.models.js:317-319 | the article is gone and every other row is kept |
| ArticleChanges.ArticleVotesAccumulate | mvc/models/articles.models.js:207 | two vote changes on an article equal one change by their sum, with no bound on the total |
| ArticleChanges.CommentVotesAccumulate | mvc/models/articles.models.js:249 | two vote changes on a comment equal one change by their sum |
| ArticleChanges.ArticleVotesSeenByFetch | mvc/models/articles.models.js:190-213 | after a vote change fetchArticleById shows the old votes plus the delta and the same comment count, and every other article reads as before |
| ArticleChanges.InsertCommentCounts | mvc/models/articles.models.js:168-188 | a new comment raises its article's comment_count by one and no other article's |
| ArticleChanges.RemoveCommentCounts | mvc/models/articles.models.js:215-230 | deleting a comment lowers its article's comment_count by one and no other article's |
| ArticleChanges.InsertedCommentSeenByFetch | mvc/models/articles.models.js:168-188 | after a new comment fetchArticleById finds the same articles, the comment's article shows one more comment and every other as many as before |
| ArticleChanges.RemovedCommentSeenByFetch | mvc/models/articles.models.js:215-230 | after a comment is deleted fetchArticleById finds the same articles, the comment's article shows one fewer and every other as many as before |
| ArticleChanges.InsertedCommentListed | mvc/models/articles.models.js:168-188 | a new comment is among its article's listed comments |
| ArticleChanges.InsertedArticleFetched | mvc/models/articles.models.js:304-307 | a new article no comment refers to is fetched back exactly as inserted, with comment_count 0 |
| ArticleChanges.InsertedArticleCounted | mvc/models/articles.models.js:101-118 | a new article raises total_count by one, unfiltered or filtered on its own topic |
| ArticleChanges.InsertedArticleListed | mvc/models/articles.models.js:261-308 | a new article is in the listing, unfiltered or filtered on its own topic, in any order |
| ArticleChanges.RemovedArticleUnreachable | mvc/models/articles.models.js:310-320 | after a delete, fetchArticleById and fetchComments on the deleted id answer 404, and every other article reads as before |
| ArticleChanges.CommentChecksArticleFirst | mvc/models/articles.models.js:176-180 | insertComment's checks reject on the article first, then on the author, and pass when both exist |
| ArticleChanges.ArticleChecksTopicFirst | mvc/models/articles.models.js:296-300 | postArticle's checks reject on the topic first, then on the author, and pass when both exist |
| ArticleStore.Store.InsertComment | mvc/models/articles.models.js:168-188 | 400 exactly when the article id, author or body is missing; then 404 exactly when the article-then-author checks reject; the store is unchanged on error; otherwise exactly one new comment with the given fields and no votes |
| ArticleStore.Store.UpdateArticleVotes | mvc/models/articles.models.js:190-213 | 400 exactly for a missing id or a missing or zero delta; 404 exactly for an absent article; otherwise stored votes plus delta, nothing else changed, and the updated row returned |
| ArticleStore.Store.RemoveComment | mvc/models/articles.models.js:215-230 | 400 exactly for a missing id; 404 exactly for an absent comment; otherwise only that comment is deleted |
| ArticleStore.Store.UpdateCommentVotes | mvc/models/articles.models.js:232-259 | 400 exactly for a missing id or a missing or zero delta; 404 exactly for an absent comment; otherwise stored votes plus delta, nothing else changed, and the updated row returned |
| ArticleStore.Store.PostArticle | mvc/models/articles.models.js:261-308 | 400 exactly when author, title, body or topic is not a non-empty string or the image is truthy and not a string; then 404 exactly when the topic-then-author checks reject; the store is unchanged on error; otherwise exactly one new article, returned re-fetched with comment_count 0 |
| ArticleStore.Store.RemoveArticle | mvc/models/articles.models.js:310-320 | 400 exactly for a missing id; 404 exactly for an absent article; otherwise only that article row is deleted |
| TopicsModels.SelectTopics | mvc/models/topics.models.js:3-6 | exactly the stored topics, each with its description |
| TopicsModels.InsertTopic | mvc/models/topics.models.js:13-15 | one new topic row is added and every other row is kept |
| TopicsModels.InsertedTopicSelected | mvc/models/topics.models.js:13-17 | after an insert the topic listing is the old listing plus the new topic |
| TopicsModels.InsertedTopicPassesCheck | mvc/models/topics.models.js:13-15 | after an insert the topic existence check passes for the new slug and otherwise as before |
| TopicsModels.PostNewTopic | mvc/models/topics.models.js:8-17 | 400 exactly when slug or description is not a non-empty string; a slug already in use is refused by the table and nothing is inserted; otherwise exactly one new topic, returned as given |
| UsersModels.FetchUsers | mvc/models/users.models.js:4-8 | exactly the stored users |
| UsersModels.ListedUsernamesUnique | mvc/models/users.models.js:4-8 | no two listed users share a username |
| UsersModels.FetchUserByUsername | mvc/models/users.models.js:10-17 | 404 exactly when no user has the username; otherwise a stored user with that username |
| UsersModels.FetchedUserIsListed | mvc/models/users.models.js:10-17 | a user is listed by fetchUsers exactly when fetchUserByUsername of its username returns it |

## Left out

- Promise chaining and concurrency are not modelled. The two queries of `fetchArticles` read one snapshot.
- ArticleStore.Store.UpdateArticleVotes: the read and the write of the votes are one step, so two concurrent updates that lose one delta are not captured.
- ArticleStore.Store.UpdateCommentVotes: the read and the write of the votes are one step, for the same reason.
- The writes also run their existence checks and their write as one step. A row deleted in between is not captured.
- ArticleStore.Store.UpdateArticleVotes: returns the updated row. The source resolves with the whole query result, whose `rows[0]` is that row.
- ArticleStore.Store.InsertComment: returns the inserted row. The source resolves with the whole query result, whose `rows[0]` is that row.
- ArticleStore.Store.RemoveComment: resolves with no value, where the source resolves with the query result of the DELETE.
- ArticleStore.Store.RemoveArticle: resolves with no value, as above.
- JavaScript coercion is not modelled: a vote delta sent as text (which concatenates), `parseInt` accepting a trailing suffix, `isNaN` coercion, a non-string `order` (on which `toUpperCase` throws), and counts arriving as text. Inputs are typed integers and optional values instead.
- ArticleQueries.FetchArticleById: takes a numeric id. A non-numeric id makes the database itself raise an error, which is not modelled.
- ArticleQueries.Listing: breaks ties on the sort key by primary-key order. Postgres leaves the order of tied rows unspecified.
- ArticleQueries.CommentListing: breaks ties on `created_at` by primary-key order, for the same reason.
- Text columns are ordered by code point. The database's collation is not modelled.
- ArticleQueries.ToUpper: maps only `a`-`z` and U+017F (long s, whose upper case is `S`). Those are the only characters whose upper case can contribute to `ASC` or `DESC`; every other character is kept as is.
- Votes and counts are unbounded integers. The INTEGER column width is not modelled.
- The schema is not part of this model, so what deleting an article does to its comments is not modelled; the model leaves them in place, unreachable through article reads.
- The error handler that maps database errors to statuses is not part of this model; a duplicate topic slug is `DbError`.
- The column defaults for `votes` (0 in the model), `created_at` (the parameter `now`) and ids (the store's sequences) are taken as stated here, not from the schema.
- ArticleChanges.DefaultImgUrl: the default image URL, has no fixed value in the model.
- TopicsModels.SelectTopics: returns a set, since the query has no ORDER BY; the row order is not modelled.
- UsersModels.FetchUsers: returns a set, for the same reason.
- Users carry username, name and avatar URL only.
- The Express routes, controllers and error middleware are not part of this model.
