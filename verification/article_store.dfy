/** The store the article model layer writes to, and its six writes. Each
    write validates its input, runs its existence checks in order, and only
    then changes one table. */
module ArticleStore {
  import opened Tables
  import opened ArticleQueries
  import opened ArticleChanges

  class Store {
    var articles: map<int, Article>
    var comments: map<int, Comment>
    var topics: map<string, string>
    var users: map<string, User>
    /** The next values the article_id and comment_id sequences hand out. */
    var nextArticleId: int
    var nextCommentId: int

    /** The tables as the reads see them. */
    function Snapshot(): Db
      reads this
    {
      Db(articles, comments, topics, users)
    }

    /** Rows are filed under their keys, the sequences are ahead of every id
        handed out, and every comment names an article id already handed out
        (so a new article starts with no comments, even after deletions). */
    ghost predicate Valid()
      reads this
    {
      && WellFormed(Snapshot())
      && (forall id :: id in articles ==> id < nextArticleId)
      && (forall id :: id in comments ==> id < nextCommentId)
      && (forall id :: id in comments ==> comments[id].articleId < nextArticleId)
    }

    /** A store holding seeded tables. */
    constructor (seed: Db, articleSeq: int, commentSeq: int)
      requires WellFormed(seed)
      requires forall id :: id in seed.articles ==> id < articleSeq
      requires forall id :: id in seed.comments ==> id < commentSeq && seed.comments[id].articleId < articleSeq
      ensures Valid()
      ensures Snapshot() == seed && nextArticleId == articleSeq && nextCommentId == commentSeq
    {
      articles, comments, topics, users := seed.articles, seed.comments, seed.topics, seed.users;
      nextArticleId, nextCommentId := articleSeq, commentSeq;
    }

    /** insertComment: 400 when the article id, author or body is missing;
        then 404 from the article check, then from the author check; then one
        new comment with no votes, stamped `now`. */
    method InsertComment(articleId: Option<int>, author: Option<string>, body: Option<string>, now: int)
      returns (r: Result<Comment>)
      requires Valid()
      modifies this`comments, this`nextCommentId
      ensures Valid()
      ensures r == Err(BadRequest) <==> !(articleId.Some? && Filled(author) && Filled(body))
      ensures r == Err(NotFound) <==>
                && articleId.Some? && Filled(author) && Filled(body)
                && FirstMissing(old(Snapshot()), [ArticleById(articleId.value), UserByUsername(author.value)]).Some?
      ensures r.Err? ==> r.error != DbError && Snapshot() == old(Snapshot()) && nextCommentId == old(nextCommentId)
      ensures r.Ok? ==> articleId.Some? && author.Some? && body.Some? && old(nextCommentId) !in old(comments)
      ensures r.Ok? ==>
                && r.value == Comment(old(nextCommentId), articleId.value, author.value, body.value, 0, now)
                && Snapshot() == InsertCommentRow(old(Snapshot()), r.value)
                && nextCommentId == old(nextCommentId) + 1
    {
      if articleId.None? || !Filled(author) || !Filled(body) {
        return Err(BadRequest);
      }
      var check := CheckExists(Snapshot(), ArticleById(articleId.value));
      if check.Fail? {
        return Err(check.error);
      }
      check := CheckExists(Snapshot(), UserByUsername(author.value));
      if check.Fail? {
        return Err(check.error);
      }
      KeyPresentIffHasRow(Snapshot(), ArticleById(articleId.value));
      var row := Comment(nextCommentId, articleId.value, author.value, body.value, 0, now);
      comments := comments[row.commentId := row];
      nextCommentId := nextCommentId + 1;
      r := Ok(row);
    }

    /** updateArticleVotes: 400 when the id or the delta is missing or the
        delta is 0; 404 for an absent article; otherwise the stored votes are
        read and written back plus the delta, and the updated row returned. */
    method UpdateArticleVotes(articleId: Option<int>, votes: Option<int>) returns (r: Result<Article>)
      requires Valid()
      modifies this`articles
      ensures Valid()
      ensures r == Err(BadRequest) <==> articleId.None? || votes.None? || votes.value == 0
      ensures r == Err(NotFound) <==>
                articleId.Some? && votes.Some? && votes.value != 0 && !HasRow(old(Snapshot()), ArticleById(articleId.value))
      ensures r.Err? ==> r.error != DbError && articles == old(articles)
      ensures r.Ok? ==> articleId.Some? && votes.Some? && articleId.value in old(articles)
      ensures r.Ok? ==>
                && Snapshot() == AddArticleVotes(old(Snapshot()), articleId.value, votes.value)
                && r.value == articles[articleId.value]
    {
      if articleId.None? || votes.None? || votes.value == 0 {
        return Err(BadRequest);
      }
      var id := articleId.value;
      var check := CheckExists(Snapshot(), ArticleById(id));
      if check.Fail? {
        return Err(check.error);
      }
      KeyPresentIffHasRow(Snapshot(), ArticleById(id));
      var current := articles[id].votes;
      var updated := current + votes.value;
      articles := articles[id := articles[id].(votes := updated)];
      r := Ok(articles[id]);
    }

    /** removeComment: 400 for a missing id, 404 for an absent comment,
        otherwise that comment is deleted. */
    method RemoveComment(commentId: Option<int>) returns (r: Result<()>)
      requires Valid()
      modifies this`comments
      ensures Valid()
      ensures r == Err(BadRequest) <==> commentId.None?
      ensures r == Err(NotFound) <==> commentId.Some? && !HasRow(old(Snapshot()), CommentById(commentId.value))
      ensures r.Err? ==> r.error != DbError && comments == old(comments)
      ensures r.Ok? ==> commentId.Some? && Snapshot() == RemoveCommentRow(old(Snapshot()), commentId.value)
    {
      if commentId.None? {
        return Err(BadRequest);
      }
      var check := CheckExists(Snapshot(), CommentById(commentId.value));
      if check.Fail? {
        return Err(check.error);
      }
      comments := comments - {commentId.value};
      r := Ok(());
    }

    /** updateCommentVotes: as updateArticleVotes, on a comment. */
    method UpdateCommentVotes(commentId: Option<int>, votes: Option<int>) returns (r: Result<Comment>)
      requires Valid()
      modifies this`comments
      ensures Valid()
      ensures r == Err(BadRequest) <==> commentId.None? || votes.None? || votes.value == 0
      ensures r == Err(NotFound) <==>
                commentId.Some? && votes.Some? && votes.value != 0 && !HasRow(old(Snapshot()), CommentById(commentId.value))
      ensures r.Err? ==> r.error != DbError && comments == old(comments)
      ensures r.Ok? ==> commentId.Some? && votes.Some? && commentId.value in old(comments)
      ensures r.Ok? ==>
                && Snapshot() == AddCommentVotes(old(Snapshot()), commentId.value, votes.value)
                && r.value == comments[commentId.value]
    {
      if commentId.None? || votes.None? || votes.value == 0 {
        return Err(BadRequest);
      }
      var id := commentId.value;
      var check := CheckExists(Snapshot(), CommentById(id));
      if check.Fail? {
        return Err(check.error);
      }
      KeyPresentIffHasRow(Snapshot(), CommentById(id));
      var current := comments[id].votes;
      var updated := current + votes.value;
      comments := comments[id := comments[id].(votes := updated)];
      r := Ok(comments[id]);
    }

    /** postArticle: 400 unless author, title, body and topic are non-empty
        strings, and 400 for a truthy image that is not a string; then 404 from
        the topic check, then from the author check; then one new article,
        fetched back with fetchArticleById. */
    method PostArticle(author: Value, title: Value, body: Value, topic: Value, image: Value, now: int)
      returns (r: Result<ArticleDetail>)
      requires Valid()
      modifies this`articles, this`nextArticleId
      ensures Valid()
      ensures r == Err(BadRequest) <==>
                !(IsText(author) && IsText(title) && IsText(body) && IsText(topic)) || (Truthy(image) && !image.Str?)
      ensures r == Err(NotFound) <==>
                && IsText(author) && IsText(title) && IsText(body) && IsText(topic) && !(Truthy(image) && !image.Str?)
                && FirstMissing(old(Snapshot()), [TopicBySlug(topic.s), UserByUsername(author.s)]).Some?
      ensures r.Err? ==> r.error != DbError && Snapshot() == old(Snapshot()) && nextArticleId == old(nextArticleId)
      ensures r.Ok? ==> author.Str? && title.Str? && body.Str? && topic.Str? && old(nextArticleId) !in old(articles)
      ensures r.Ok? ==>
                && r.value.article == Article(old(nextArticleId), author.s, title.s, body.s, topic.s, now, 0, ImageUrl(image))
                && r.value.commentCount == 0
                && Snapshot() == InsertArticleRow(old(Snapshot()), r.value.article)
                && nextArticleId == old(nextArticleId) + 1
    {
      if !IsText(author) || !IsText(title) || !IsText(body) || !IsText(topic) {
        return Err(BadRequest);
      }
      if Truthy(image) && !image.Str? {
        return Err(BadRequest);
      }
      var check := CheckExists(Snapshot(), TopicBySlug(topic.s));
      if check.Fail? {
        return Err(check.error);
      }
      check := CheckExists(Snapshot(), UserByUsername(author.s));
      if check.Fail? {
        return Err(check.error);
      }
      var row := Article(nextArticleId, author.s, title.s, body.s, topic.s, now, 0, ImageUrl(image));
      ghost var before := Snapshot();
      articles := articles[row.articleId := row];
      nextArticleId := nextArticleId + 1;
      InsertedArticleFetched(before, row);
      r := FetchArticleById(Snapshot(), row.articleId);
    }

    /** removeArticle: 400 for a missing id, 404 for an absent article,
        otherwise the article row is deleted. */
    method RemoveArticle(articleId: Option<int>) returns (r: Result<()>)
      requires Valid()
      modifies this`articles
      ensures Valid()
      ensures r == Err(BadRequest) <==> articleId.None?
      ensures r == Err(NotFound) <==> articleId.Some? && !HasRow(old(Snapshot()), ArticleById(articleId.value))
      ensures r.Err? ==> r.error != DbError && articles == old(articles)
      ensures r.Ok? ==> articleId.Some? && Snapshot() == RemoveArticleRow(old(Snapshot()), articleId.value)
    {
      if articleId.None? {
        return Err(BadRequest);
      }
      var check := CheckExists(Snapshot(), ArticleById(articleId.value));
      if check.Fail? {
        return Err(check.error);
      }
      articles := articles - {articleId.value};
      r := Ok(());
    }
  }
}
