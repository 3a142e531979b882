/** What each write of the article model layer does to the store, as a
    function from the snapshot before to the snapshot after, and what the
    reads see afterwards. */
module ArticleChanges {
  import opened Tables
  import opened ArticleQueries

  /** The article_img_url the articles table fills in when an article is
      inserted without one. Its text belongs to the schema, which is not part
      of this model. */
  const DefaultImgUrl: string

  /** The image column of a new article: the given string when it is truthy,
      the table default otherwise. */
  function ImageUrl(image: Value): (url: string)
    ensures !Truthy(image) ==> url == DefaultImgUrl
    ensures IsText(image) ==> url == image.s
  {
    if Truthy(image) && image.Str? then image.s else DefaultImgUrl
  }

  /** UPDATE articles SET votes = old votes + delta for one article. */
  function AddArticleVotes(db: Db, id: int, delta: int): (r: Db)
    requires id in db.articles
    ensures r.comments == db.comments && r.topics == db.topics && r.users == db.users
    ensures r.articles.Keys == db.articles.Keys
    ensures r.articles[id].votes == db.articles[id].votes + delta
    ensures r.articles[id] == db.articles[id].(votes := r.articles[id].votes)
    ensures forall other :: other in db.articles && other != id ==> r.articles[other] == db.articles[other]
  {
    var row := db.articles[id];
    db.(articles := db.articles[id := row.(votes := row.votes + delta)])
  }

  /** UPDATE comments SET votes = old votes + delta for one comment. */
  function AddCommentVotes(db: Db, id: int, delta: int): (r: Db)
    requires id in db.comments
    ensures r.articles == db.articles && r.topics == db.topics && r.users == db.users
    ensures r.comments.Keys == db.comments.Keys
    ensures r.comments[id].votes == db.comments[id].votes + delta
    ensures r.comments[id] == db.comments[id].(votes := r.comments[id].votes)
    ensures forall other :: other in db.comments && other != id ==> r.comments[other] == db.comments[other]
  {
    var row := db.comments[id];
    db.(comments := db.comments[id := row.(votes := row.votes + delta)])
  }

  /** INSERT INTO comments of one new row. */
  function InsertCommentRow(db: Db, c: Comment): (r: Db)
    requires c.commentId !in db.comments
    ensures r.articles == db.articles && r.topics == db.topics && r.users == db.users
    ensures r.comments.Keys == db.comments.Keys + {c.commentId}
    ensures r.comments[c.commentId] == c
    ensures forall id :: id in db.comments ==> r.comments[id] == db.comments[id]
  {
    db.(comments := db.comments[c.commentId := c])
  }

  /** DELETE FROM comments WHERE comment_id = id. */
  function RemoveCommentRow(db: Db, id: int): (r: Db)
    ensures r.articles == db.articles && r.topics == db.topics && r.users == db.users
    ensures r.comments.Keys == db.comments.Keys - {id}
    ensures forall other :: other in r.comments ==> r.comments[other] == db.comments[other]
  {
    db.(comments := db.comments - {id})
  }

  /** INSERT INTO articles of one new row. */
  function InsertArticleRow(db: Db, a: Article): (r: Db)
    requires a.articleId !in db.articles
    ensures r.comments == db.comments && r.topics == db.topics && r.users == db.users
    ensures r.articles.Keys == db.articles.Keys + {a.articleId}
    ensures r.articles[a.articleId] == a
    ensures forall id :: id in db.articles ==> r.articles[id] == db.articles[id]
  {
    db.(articles := db.articles[a.articleId := a])
  }

  /** DELETE FROM articles WHERE article_id = id. Only the articles table
      changes: what happens to the article's comments is schema behaviour. */
  function RemoveArticleRow(db: Db, id: int): (r: Db)
    ensures r.comments == db.comments && r.topics == db.topics && r.users == db.users
    ensures r.articles.Keys == db.articles.Keys - {id}
    ensures forall other :: other in r.articles ==> r.articles[other] == db.articles[other]
  {
    db.(articles := db.articles - {id})
  }

  // ---- what the reads see after a write ----

  /** Two vote changes on one article add up: votes have no bound and every
      change is relative to the stored value. */
  lemma {:induction false} ArticleVotesAccumulate(db: Db, id: int, d1: int, d2: int)
    requires id in db.articles
    ensures AddArticleVotes(AddArticleVotes(db, id, d1), id, d2) == AddArticleVotes(db, id, d1 + d2)
  {
    var once := AddArticleVotes(db, id, d1);
    var twice := AddArticleVotes(once, id, d2);
    var direct := AddArticleVotes(db, id, d1 + d2);
    assert twice.articles == direct.articles;
  }

  lemma {:induction false} CommentVotesAccumulate(db: Db, id: int, d1: int, d2: int)
    requires id in db.comments
    ensures AddCommentVotes(AddCommentVotes(db, id, d1), id, d2) == AddCommentVotes(db, id, d1 + d2)
  {
    var once := AddCommentVotes(db, id, d1);
    var twice := AddCommentVotes(once, id, d2);
    var direct := AddCommentVotes(db, id, d1 + d2);
    assert twice.comments == direct.comments;
  }

  /** After a vote change, fetchArticleById shows the new total and the same
      comment count for that article, and the same row for every other one. */
  lemma ArticleVotesSeenByFetch(db: Db, id: int, delta: int, other: int)
    requires WellFormed(db) && id in db.articles
    ensures WellFormed(AddArticleVotes(db, id, delta))
    ensures var before, after := FetchArticleById(db, other), FetchArticleById(AddArticleVotes(db, id, delta), other);
      && after.Ok? == before.Ok?
      && (after.Ok? && other == id ==>
            after.value.article.votes == before.value.article.votes + delta
            && after.value.commentCount == before.value.commentCount)
      && (other != id ==> after == before)
  {
    var after := AddArticleVotes(db, id, delta);
    assert CommentIdsOf(after, other) == CommentIdsOf(db, other);
    KeyPresentIffHasRow(db, ArticleById(other));
    KeyPresentIffHasRow(after, ArticleById(other));
  }

  lemma {:induction false} InsertCommentCounts(db: Db, c: Comment, articleId: int)
    requires c.commentId !in db.comments
    ensures CommentCount(InsertCommentRow(db, c), articleId) ==
              CommentCount(db, articleId) + (if articleId == c.articleId then 1 else 0)
  {
    var after := InsertCommentRow(db, c);
    var before, now := CommentIdsOf(db, articleId), CommentIdsOf(after, articleId);
    var added := if articleId == c.articleId then {c.commentId} else {};
    forall k
      ensures k in now <==> k in before + added
    {
      if k != c.commentId && k in after.comments {
        assert after.comments[k] == db.comments[k];
      }
    }
    assert now == before + added;
    assert c.commentId !in before;
  }

  /** Deleting a comment lowers its article's comment_count by one and leaves
      every other article's count alone. */
  lemma {:induction false} RemoveCommentCounts(db: Db, id: int, articleId: int)
    requires id in db.comments
    ensures CommentCount(RemoveCommentRow(db, id), articleId) ==
              CommentCount(db, articleId) - (if articleId == db.comments[id].articleId then 1 else 0)
  {
    var after := RemoveCommentRow(db, id);
    var before, now := CommentIdsOf(db, articleId), CommentIdsOf(after, articleId);
    var removed := if articleId == db.comments[id].articleId then {id} else {};
    forall k
      ensures k in now <==> k in before - removed
    {
      if k != id && k in db.comments {
        assert after.comments[k] == db.comments[k];
      }
    }
    assert now == before - removed;
    assert removed <= before;
  }

  /** After a new comment, fetchArticleById finds the same articles, and the
      comment's article shows one more comment while every other shows as
      many as before. */
  lemma InsertedCommentSeenByFetch(db: Db, c: Comment, id: int)
    requires WellFormed(db) && c.commentId !in db.comments
    ensures WellFormed(InsertCommentRow(db, c))
    ensures var before, after := FetchArticleById(db, id), FetchArticleById(InsertCommentRow(db, c), id);
      && after.Ok? == before.Ok?
      && (after.Ok? ==>
            after.value.article == before.value.article
            && after.value.commentCount == before.value.commentCount + (if id == c.articleId then 1 else 0))
  {
    InsertCommentCounts(db, c, id);
    KeyPresentIffHasRow(db, ArticleById(id));
    KeyPresentIffHasRow(InsertCommentRow(db, c), ArticleById(id));
  }

  /** After a comment is deleted, fetchArticleById finds the same articles,
      and the comment's article shows one comment fewer while every other
      shows as many as before. */
  lemma RemovedCommentSeenByFetch(db: Db, commentId: int, id: int)
    requires WellFormed(db) && commentId in db.comments
    ensures WellFormed(RemoveCommentRow(db, commentId))
    ensures var before, after := FetchArticleById(db, id), FetchArticleById(RemoveCommentRow(db, commentId), id);
      && after.Ok? == before.Ok?
      && (after.Ok? ==>
            after.value.article == before.value.article
            && after.value.commentCount ==
                 before.value.commentCount - (if id == db.comments[commentId].articleId then 1 else 0))
  {
    RemoveCommentCounts(db, commentId, id);
    KeyPresentIffHasRow(db, ArticleById(id));
    KeyPresentIffHasRow(RemoveCommentRow(db, commentId), ArticleById(id));
  }

  /** A new comment is listed among its article's comments. */
  lemma InsertedCommentListed(db: Db, c: Comment)
    requires WellFormed(db) && c.commentId !in db.comments
    ensures WellFormed(InsertCommentRow(db, c))
    ensures c in CommentListing(InsertCommentRow(db, c), c.articleId)
  {
    var after := InsertCommentRow(db, c);
    assert c.commentId in CommentIdsOf(after, c.articleId);
  }

  /** A new article that no comment refers to is fetched back as inserted,
      with comment_count 0. */
  lemma InsertedArticleFetched(db: Db, a: Article)
    requires WellFormed(db) && a.articleId !in db.articles
    requires forall id :: id in db.comments ==> db.comments[id].articleId != a.articleId
    ensures WellFormed(InsertArticleRow(db, a))
    ensures FetchArticleById(InsertArticleRow(db, a), a.articleId) == Ok(ArticleDetail(a, 0))
  {
    var after := InsertArticleRow(db, a);
    assert forall k :: k !in CommentIdsOf(after, a.articleId);
    assert CommentIdsOf(after, a.articleId) == {};
    KeyPresentIffHasRow(after, ArticleById(a.articleId));
  }

  /** A new article raises total_count by one, with or without its topic as
      the filter. */
  lemma {:induction false} InsertedArticleCounted(db: Db, a: Article, filter: Option<string>)
    requires a.articleId !in db.articles
    requires filter.None? || filter == Some(a.topic)
    ensures |MatchingIds(InsertArticleRow(db, a), filter)| == |MatchingIds(db, filter)| + 1
  {
    var after := InsertArticleRow(db, a);
    var before, now := MatchingIds(db, filter), MatchingIds(after, filter);
    forall k
      ensures k in now <==> k in before + {a.articleId}
    {
      if k != a.articleId && k in db.articles {
        assert after.articles[k] == db.articles[k];
      }
    }
    assert now == before + {a.articleId};
    assert a.articleId !in before;
  }

  /** A new article is a row of the listing, with or without its topic as
      the filter, in any order. */
  lemma InsertedArticleListed(db: Db, a: Article, filter: Option<string>, key: SortKey, dir: Direction)
    requires WellFormed(db) && a.articleId !in db.articles
    requires filter.None? || filter == Some(a.topic)
    ensures WellFormed(InsertArticleRow(db, a))
    ensures Summarize(InsertArticleRow(db, a), a.articleId) in Listing(InsertArticleRow(db, a), filter, key, dir)
  {
    var after := InsertArticleRow(db, a);
    assert a.articleId in MatchingIds(after, filter);
  }

  /** Once an article is deleted neither it nor its comments can be read
      through it, and every other article reads as before. */
  lemma RemovedArticleUnreachable(db: Db, id: int, pageLimit: Option<int>, page: int, other: int)
    requires WellFormed(db) && page >= 1 && ParseLimit(pageLimit).Ok?
    ensures WellFormed(RemoveArticleRow(db, id))
    ensures FetchArticleById(RemoveArticleRow(db, id), id) == Err(NotFound)
    ensures FetchComments(RemoveArticleRow(db, id), Some(id), pageLimit, page) == Err(NotFound)
    ensures other != id ==> FetchArticleById(RemoveArticleRow(db, id), other) == FetchArticleById(db, other)
  {
    var after := RemoveArticleRow(db, id);
    KeyPresentIffHasRow(after, ArticleById(id));
    KeyPresentIffHasRow(db, ArticleById(other));
    KeyPresentIffHasRow(after, ArticleById(other));
    assert CommentIdsOf(after, other) == CommentIdsOf(db, other);
  }

  /** The existence checks of insertComment run article first: when the
      article is missing that check rejects, whatever the author. */
  lemma CommentChecksArticleFirst(db: Db, articleId: int, author: string)
    requires WellFormed(db)
    ensures var checks := [ArticleById(articleId), UserByUsername(author)];
      && (articleId !in db.articles ==> FirstMissing(db, checks) == Some(0))
      && (articleId in db.articles && author !in db.users ==> FirstMissing(db, checks) == Some(1))
      && (articleId in db.articles && author in db.users ==> FirstMissing(db, checks) == None)
  {
    var checks := [ArticleById(articleId), UserByUsername(author)];
    KeyPresentIffHasRow(db, checks[0]);
    KeyPresentIffHasRow(db, checks[1]);
  }

  /** The existence checks of postArticle run topic first. */
  lemma ArticleChecksTopicFirst(db: Db, topic: string, author: string)
    requires WellFormed(db)
    ensures var checks := [TopicBySlug(topic), UserByUsername(author)];
      && (topic !in db.topics ==> FirstMissing(db, checks) == Some(0))
      && (topic in db.topics && author !in db.users ==> FirstMissing(db, checks) == Some(1))
      && (topic in db.topics && author in db.users ==> FirstMissing(db, checks) == None)
  {
    var checks := [TopicBySlug(topic), UserByUsername(author)];
    KeyPresentIffHasRow(db, checks[0]);
    KeyPresentIffHasRow(db, checks[1]);
  }
}
