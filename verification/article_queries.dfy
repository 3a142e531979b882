/** The read operations of the article model layer, each a function of one
    snapshot of the store: the generic existence check, one article with its
    comment count, the filtered, sorted and paginated article listing, and the
    paginated comments of one article. */
module ArticleQueries {
  import opened Tables
  import opened Ordering

  /** The (table, column) pairs the existence check is ever asked about, each
      with a value of the column's type. */
  datatype Lookup =
    | ArticleById(articleId: int)       // articles.article_id
    | CommentById(commentId: int)       // comments.comment_id
    | TopicBySlug(slug: string)         // topics.slug
    | UserByUsername(username: string)  // users.username

  /** Some row of the named table holds the value in the named column. */
  ghost predicate HasRow(db: Db, key: Lookup) {
    match key
    case ArticleById(id) => exists a :: a in db.articles.Values && a.articleId == id
    case CommentById(id) => exists c :: c in db.comments.Values && c.commentId == id
    case TopicBySlug(slug) => exists t :: t in db.topics && t == slug
    case UserByUsername(name) => exists u :: u in db.users.Values && u.username == name
  }

  /** The row lookup itself: each table is filed under the checked column. */
  predicate KeyPresent(db: Db, key: Lookup) {
    match key
    case ArticleById(id) => id in db.articles
    case CommentById(id) => id in db.comments
    case TopicBySlug(slug) => slug in db.topics
    case UserByUsername(name) => name in db.users
  }

  lemma KeyPresentIffHasRow(db: Db, key: Lookup)
    requires WellFormed(db)
    ensures KeyPresent(db, key) <==> HasRow(db, key)
  {
    match key
    case ArticleById(id) =>
      if id in db.articles {
        assert db.articles[id] in db.articles.Values;
      }
      if HasRow(db, key) {
        var a :| a in db.articles.Values && a.articleId == id;
        var k := KeyOf(db.articles, a);
      }
    case CommentById(id) =>
      if id in db.comments {
        assert db.comments[id] in db.comments.Values;
      }
      if HasRow(db, key) {
        var c :| c in db.comments.Values && c.commentId == id;
        var k := KeyOf(db.comments, c);
      }
    case TopicBySlug(slug) =>
    case UserByUsername(name) =>
      if name in db.users {
        assert db.users[name] in db.users.Values;
      }
      if HasRow(db, key) {
        var u :| u in db.users.Values && u.username == name;
        var k :| k in db.users && db.users[k] == u;
      }
  }

  lemma KeyOf<K, V>(m: map<K, V>, v: V) returns (k: K)
    requires v in m.Values
    ensures k in m && m[k] == v
  {
    k :| k in m && m[k] == v;
  }

  /** checkExists: passes when a row matches and rejects with 404 otherwise. */
  function CheckExists(db: Db, key: Lookup): (r: Outcome)
    requires WellFormed(db)
    ensures r == Pass <==> HasRow(db, key)
    ensures r != Pass ==> r == Fail(NotFound)
  {
    KeyPresentIffHasRow(db, key);
    if KeyPresent(db, key) then Pass else Fail(NotFound)
  }

  /** A chain of existence checks run one after the other, each only once the
      previous one passed: the position of the check that rejects, if any. */
  function FirstMissing(db: Db, checks: seq<Lookup>): (r: Option<nat>)
    requires WellFormed(db)
    ensures r.Some? ==> r.value < |checks| && !HasRow(db, checks[r.value])
    ensures r.Some? ==> forall j :: 0 <= j < r.value ==> HasRow(db, checks[j])
    ensures r.None? <==> forall j :: 0 <= j < |checks| ==> HasRow(db, checks[j])
  {
    if checks == [] then None
    else if CheckExists(db, checks[0]).Fail? then Some(0)
    else
      match FirstMissing(db, checks[1..])
      case None => None
      case Some(i) => Some(i + 1)
  }

  /** The ids of the comments left on one article. */
  function CommentIdsOf(db: Db, articleId: int): set<int> {
    set id | id in db.comments && db.comments[id].articleId == articleId
  }

  /** COUNT(comments.comment_id) over the LEFT JOIN for one article. */
  function CommentCount(db: Db, articleId: int): nat {
    |CommentIdsOf(db, articleId)|
  }

  /** A row of fetchArticleById: every column of the article and its live
      comment_count. */
  datatype ArticleDetail = ArticleDetail(article: Article, commentCount: nat)

  lemma NoCommentsIffZero(db: Db, id: int)
    ensures CommentCount(db, id) == 0 <==> forall c :: c in db.comments.Values ==> c.articleId != id
  {
    var ids := CommentIdsOf(db, id);
    if ids != {} {
      if forall k :: k !in ids {
        assert false;
      }
      var k :| k in ids;
      assert db.comments[k] in db.comments.Values;
    }
    if exists c :: c in db.comments.Values && c.articleId == id {
      var c :| c in db.comments.Values && c.articleId == id;
      var k := KeyOf(db.comments, c);
      assert k in ids;
    }
  }

  /** fetchArticleById: 404 for an absent id, otherwise the article's row and
      the number of comments whose article_id matches. */
  function FetchArticleById(db: Db, id: int): (r: Result<ArticleDetail>)
    requires WellFormed(db)
    ensures r.Err? <==> !HasRow(db, ArticleById(id))
    ensures r.Err? ==> r.error == NotFound
    ensures r.Ok? ==> id in db.articles && r.value.article == db.articles[id]
    ensures r.Ok? ==> r.value.commentCount == CommentCount(db, id)
    ensures r.Ok? ==> (r.value.commentCount == 0 <==>
                        forall c :: c in db.comments.Values ==> c.articleId != id)
  {
    if CheckExists(db, ArticleById(id)).Fail? then Err(NotFound)
    else
      assert db.articles[id] in db.articles.Values;
      NoCommentsIffZero(db, id);
      Ok(ArticleDetail(db.articles[id], CommentCount(db, id)))
  }

  // ---- fetchArticles: validation of the query parameters ----

  /** The columns the listing may be ordered by. ByCreatedAt is reachable only
      as the default: the allow-list does not name it. */
  datatype SortKey = ByAuthor | ByTitle | ByTopic | ByVotes | ByCommentCount | ByCreatedAt

  datatype Direction = Asc | Desc

  /** The name ORDER BY uses for a sort key. */
  function ColumnName(key: SortKey): string {
    match key
    case ByAuthor => "author"
    case ByTitle => "title"
    case ByTopic => "topic"
    case ByVotes => "votes"
    case ByCommentCount => "comment_count"
    case ByCreatedAt => "created_at"
  }

  /** The allow-list of sort_by values. */
  const SortableColumns: set<string> := {"author", "title", "topic", "votes", "comment_count"}

  /** Page sizes a caller may ask for, and the one used when none is given. */
  const PageSizes: set<int> := {5, 10, 20, 50, 100, 250}
  const DefaultPageSize: nat := 10

  /** sort_by: absent or empty picks created_at, an allowed column picks
      itself, anything else is a bad request. */
  function ParseSort(sortBy: Option<string>): (r: Result<SortKey>)
    ensures !Filled(sortBy) ==> r == Ok(ByCreatedAt)
    ensures Filled(sortBy) ==> (r.Ok? <==> sortBy.value in SortableColumns)
    ensures Filled(sortBy) && r.Ok? ==> ColumnName(r.value) == sortBy.value
    ensures r.Err? ==> r.error == BadRequest
  {
    if !Filled(sortBy) then Ok(ByCreatedAt)
    else if sortBy.value == "author" then Ok(ByAuthor)
    else if sortBy.value == "title" then Ok(ByTitle)
    else if sortBy.value == "topic" then Ok(ByTopic)
    else if sortBy.value == "votes" then Ok(ByVotes)
    else if sortBy.value == "comment_count" then Ok(ByCommentCount)
    else Err(BadRequest)
  }

  /** String.prototype.toUpperCase on the characters whose upper case is a
      letter of ASC or DESC: a-z and U+017F (long s, upper case 'S'). Every other
      character is kept, which cannot turn a string into "ASC" or "DESC" or
      keep one from becoming it. */
  function UpperChar(c: char): char {
    if 'a' <= c <= 'z' then (c as int - 32) as char
    else if c == '\U{017F}' then 'S'
    else c
  }

  function ToUpper(s: string): (r: string)
    ensures |r| == |s| && forall i :: 0 <= i < |s| ==> r[i] == UpperChar(s[i])
  {
    seq(|s|, i requires 0 <= i < |s| => UpperChar(s[i]))
  }

  /** The texts whose upper case is ASC: each letter in either case, and the
      long s for the s. */
  lemma UpperIsAsc(s: string)
    ensures ToUpper(s) == "ASC" <==> |s| == 3 && s[0] in "aA" && s[1] in "sS\U{017F}" && s[2] in "cC"
  {
    if ToUpper(s) == "ASC" {
      assert UpperChar(s[0]) == 'A' && UpperChar(s[1]) == 'S' && UpperChar(s[2]) == 'C';
    }
    if |s| == 3 && s[0] in "aA" && s[1] in "sS\U{017F}" && s[2] in "cC" {
      assert ToUpper(s) == [UpperChar(s[0]), UpperChar(s[1]), UpperChar(s[2])];
    }
  }

  /** The texts whose upper case is DESC. */
  lemma UpperIsDesc(s: string)
    ensures ToUpper(s) == "DESC" <==>
              |s| == 4 && s[0] in "dD" && s[1] in "eE" && s[2] in "sS\U{017F}" && s[3] in "cC"
  {
    if ToUpper(s) == "DESC" {
      assert UpperChar(s[0]) == 'D' && UpperChar(s[1]) == 'E' && UpperChar(s[2]) == 'S' && UpperChar(s[3]) == 'C';
    }
    if |s| == 4 && s[0] in "dD" && s[1] in "eE" && s[2] in "sS\U{017F}" && s[3] in "cC" {
      assert ToUpper(s) == [UpperChar(s[0]), UpperChar(s[1]), UpperChar(s[2]), UpperChar(s[3])];
    }
  }

  /** order: absent or empty is DESC; otherwise it must read ASC or DESC
      whatever its case. */
  function ParseOrder(order: Option<string>): (r: Result<Direction>)
    ensures !Filled(order) ==> r == Ok(Desc)
    ensures Filled(order) ==> (r == Ok(Asc) <==> ToUpper(order.value) == "ASC")
    ensures Filled(order) ==> (r == Ok(Desc) <==> ToUpper(order.value) == "DESC")
    ensures r.Err? ==> r.error == BadRequest
  {
    if !Filled(order) then Ok(Desc)
    else if ToUpper(order.value) == "ASC" then Ok(Asc)
    else if ToUpper(order.value) == "DESC" then Ok(Desc)
    else Err(BadRequest)
  }

  /** limit: absent is 10; a given value must be one of the page sizes. */
  function ParseLimit(pageLimit: Option<int>): (r: Result<nat>)
    ensures pageLimit.None? ==> r == Ok(DefaultPageSize)
    ensures pageLimit.Some? ==> (r.Ok? <==> pageLimit.value in PageSizes)
    ensures pageLimit.Some? && r.Ok? ==> r.value == pageLimit.value
    ensures r.Ok? ==> r.value in PageSizes
    ensures r.Err? ==> r.error == BadRequest
  {
    if pageLimit.None? then Ok(DefaultPageSize)
    else if pageLimit.value in PageSizes then Ok(pageLimit.value)
    else Err(BadRequest)
  }

  // ---- fetchArticles: the listing ----

  /** A row of the listing: every column of the article except body, plus the
      live comment_count. */
  datatype ArticleSummary = ArticleSummary(
    author: string,
    title: string,
    articleId: int,
    topic: string,
    createdAt: int,
    votes: int,
    articleImgUrl: string,
    commentCount: nat)

  /** Whether `a` may come before `b` when ordering ascending on `key`. */
  predicate KeyLe(key: SortKey, a: ArticleSummary, b: ArticleSummary) {
    match key
    case ByAuthor => LexLe(a.author, b.author)
    case ByTitle => LexLe(a.title, b.title)
    case ByTopic => LexLe(a.topic, b.topic)
    case ByVotes => a.votes <= b.votes
    case ByCommentCount => a.commentCount <= b.commentCount
    case ByCreatedAt => a.createdAt <= b.createdAt
  }

  /** ORDER BY key ASC or ORDER BY key DESC, as a comparison. */
  function Order(key: SortKey, dir: Direction): (ArticleSummary, ArticleSummary) -> bool {
    (a: ArticleSummary, b: ArticleSummary) => if dir == Asc then KeyLe(key, a, b) else KeyLe(key, b, a)
  }

  lemma OrderIsTotalPreorder(key: SortKey, dir: Direction)
    ensures TotalPreorder(Order(key, dir))
  {
    var le := Order(key, dir);
    forall a, b
      ensures le(a, b) || le(b, a)
    {
      LexLeTotal(a.author, b.author);
      LexLeTotal(a.title, b.title);
      LexLeTotal(a.topic, b.topic);
    }
    forall a, b, c | le(a, b) && le(b, c)
      ensures le(a, c)
    {
      match key
      case ByAuthor =>
        if dir == Asc { LexLeTransitive(a.author, b.author, c.author); }
        else { LexLeTransitive(c.author, b.author, a.author); }
      case ByTitle =>
        if dir == Asc { LexLeTransitive(a.title, b.title, c.title); }
        else { LexLeTransitive(c.title, b.title, a.title); }
      case ByTopic =>
        if dir == Asc { LexLeTransitive(a.topic, b.topic, c.topic); }
        else { LexLeTransitive(c.topic, b.topic, a.topic); }
      case ByVotes =>
      case ByCommentCount =>
      case ByCreatedAt =>
    }
  }

  /** The ids the listing covers: every article, or those of one topic. */
  function MatchingIds(db: Db, filter: Option<string>): set<int> {
    set id | id in db.articles && (filter.None? || db.articles[id].topic == filter.value)
  }

  function Summarize(db: Db, id: int): ArticleSummary
    requires id in db.articles
  {
    var a := db.articles[id];
    ArticleSummary(a.author, a.title, a.articleId, a.topic, a.createdAt, a.votes,
                   a.articleImgUrl, CommentCount(db, id))
  }

  /** The whole filtered listing in the requested order, before LIMIT and
      OFFSET: one summary per matching article. Rows that tie on the key keep
      primary-key order. */
  function Listing(db: Db, filter: Option<string>, key: SortKey, dir: Direction): (r: seq<ArticleSummary>)
    requires WellFormed(db)
    ensures |r| == |MatchingIds(db, filter)|
    ensures forall s :: s in r ==> s.articleId in MatchingIds(db, filter) && s == Summarize(db, s.articleId)
    ensures forall id :: id in MatchingIds(db, filter) ==> Summarize(db, id) in r
    ensures Sorted(Order(key, dir), r)
  {
    var rows := ScanArticles(db, filter);
    OrderIsTotalPreorder(key, dir);
    SortSorted(Order(key, dir), rows);
    SortKeepsRows(Order(key, dir), rows);
    Sort(Order(key, dir), rows)
  }

  /** The matching articles summarised in primary-key order. */
  function ScanArticles(db: Db, filter: Option<string>): (r: seq<ArticleSummary>)
    requires WellFormed(db)
    ensures |r| == |MatchingIds(db, filter)|
    ensures forall s :: s in r ==> s.articleId in MatchingIds(db, filter) && s == Summarize(db, s.articleId)
    ensures forall id :: id in MatchingIds(db, filter) ==> Summarize(db, id) in r
  {
    var ids := SortedIds(MatchingIds(db, filter));
    assert forall i :: 0 <= i < |ids| ==> ids[i] in MatchingIds(db, filter);
    var r := seq(|ids|, i requires 0 <= i < |ids| => Summarize(db, ids[i]));
    MappedCovers(ids, r, k requires k in db.articles => Summarize(db, k));
    r
  }

  /** A list built by mapping `f` over a list of keys holds the image of
      every one of those keys. */
  lemma MappedCovers<K, V>(keys: seq<K>, r: seq<V>, f: K --> V)
    requires forall i :: 0 <= i < |keys| ==> f.requires(keys[i])
    requires |r| == |keys| && forall i :: 0 <= i < |keys| ==> r[i] == f(keys[i])
    ensures forall k :: k in keys ==> f(k) in r
  {
    forall k | k in keys
      ensures f(k) in r
    {
      var i :| 0 <= i < |keys| && keys[i] == k;
      assert r[i] == f(k);
    }
  }

  /** What fetchArticles resolves with: one page of the listing and the size
      of the whole filtered listing. */
  datatype ArticlePage = ArticlePage(articles: seq<ArticleSummary>, totalCount: nat)

  /** The topic filter in force: a present, non-empty topic. */
  function TopicFilter(topic: Option<string>): Option<string> {
    if Filled(topic) then topic else None
  }

  /** Every parameter of a listing request passes its check. */
  ghost predicate ListingRequestValid(db: Db, topic: Option<string>, sortBy: Option<string>,
                                      order: Option<string>, pageLimit: Option<int>) {
    && ParseOrder(order).Ok?
    && ParseSort(sortBy).Ok?
    && ParseLimit(pageLimit).Ok?
    && (Filled(topic) ==> topic.value in db.topics)
  }

  /** fetchArticles: 400 for a bad order, sort column, page size or an unknown
      topic; otherwise page `page` of the filtered listing in the requested
      order and the size of the whole filtered listing. */
  function FetchArticles(db: Db, topic: Option<string>, sortBy: Option<string>, order: Option<string>,
                         pageLimit: Option<int>, page: int): (r: Result<ArticlePage>)
    requires WellFormed(db) && page >= 1
    ensures r.Err? <==> !ListingRequestValid(db, topic, sortBy, order, pageLimit)
    ensures r.Err? ==> r.error == BadRequest
    ensures r.Ok? ==>
      var key, dir, limit := ParseSort(sortBy).value, ParseOrder(order).value, ParseLimit(pageLimit).value;
      var all := Listing(db, TopicFilter(topic), key, dir);
      && |r.value.articles| <= limit
      && r.value.totalCount == |all| == |MatchingIds(db, TopicFilter(topic))|
      && Sorted(Order(key, dir), r.value.articles)
      && (forall i :: 0 <= i < |r.value.articles| ==>
            Offset(limit, page) + i < |all| && r.value.articles[i] == all[Offset(limit, page) + i])
      && (Offset(limit, page) + limit <= |all| ==> |r.value.articles| == limit)
      && (Offset(limit, page) < |all| < Offset(limit, page) + limit ==>
            |r.value.articles| == |all| - Offset(limit, page))
      && (Offset(limit, page) >= |all| ==> r.value.articles == [])
  {
    var dir := ParseOrder(order);
    var key := ParseSort(sortBy);
    var limit := ParseLimit(pageLimit);
    if dir.Err? then Err(dir.error)
    else if key.Err? then Err(key.error)
    else if limit.Err? then Err(limit.error)
    else if Filled(topic) && topic.value !in db.topics then Err(BadRequest)
    else Ok(ListingPage(db, TopicFilter(topic), key.value, dir.value, limit.value, page))
  }

  /** A successful listing request answers with the page of the listing its
      parameters select. */
  lemma FetchArticlesPage(db: Db, topic: Option<string>, sortBy: Option<string>, order: Option<string>,
                          pageLimit: Option<int>, page: int)
    requires WellFormed(db) && page >= 1
    requires ListingRequestValid(db, topic, sortBy, order, pageLimit)
    ensures FetchArticles(db, topic, sortBy, order, pageLimit, page) ==
              Ok(ListingPage(db, TopicFilter(topic), ParseSort(sortBy).value, ParseOrder(order).value,
                             ParseLimit(pageLimit).value, page))
  {
  }

  /** With a topic, every listed row is of that topic. */
  lemma FetchArticlesTopicOnly(db: Db, topic: Option<string>, sortBy: Option<string>, order: Option<string>,
                               pageLimit: Option<int>, page: int)
    requires WellFormed(db) && page >= 1 && Filled(topic)
    requires ListingRequestValid(db, topic, sortBy, order, pageLimit)
    ensures FetchArticles(db, topic, sortBy, order, pageLimit, page).Ok?
    ensures forall s :: s in FetchArticles(db, topic, sortBy, order, pageLimit, page).value.articles ==>
              s.topic == topic.value && s.articleId in db.articles && db.articles[s.articleId].topic == topic.value
  {
    var key, dir, limit := ParseSort(sortBy).value, ParseOrder(order).value, ParseLimit(pageLimit).value;
    FetchArticlesPage(db, topic, sortBy, order, pageLimit, page);
    PageRowsMatch(db, TopicFilter(topic), key, dir, limit, page);
  }

  /** Without a topic, total_count is the number of all articles. */
  lemma FetchArticlesUnfilteredTotal(db: Db, sortBy: Option<string>, order: Option<string>,
                                     pageLimit: Option<int>, page: int, topic: Option<string>)
    requires WellFormed(db) && page >= 1 && !Filled(topic)
    requires ListingRequestValid(db, topic, sortBy, order, pageLimit)
    ensures FetchArticles(db, topic, sortBy, order, pageLimit, page).Ok?
    ensures FetchArticles(db, topic, sortBy, order, pageLimit, page).value.totalCount == |db.articles|
  {
    var key, dir, limit := ParseSort(sortBy).value, ParseOrder(order).value, ParseLimit(pageLimit).value;
    FetchArticlesPage(db, topic, sortBy, order, pageLimit, page);
    assert MatchingIds(db, None) == db.articles.Keys;
  }

  /** Every row of a page is the summary of a matching article. */
  lemma PageRowsMatch(db: Db, filter: Option<string>, key: SortKey, dir: Direction, limit: nat, page: int)
    requires WellFormed(db) && limit > 0 && page >= 1
    ensures forall s :: s in ListingPage(db, filter, key, dir, limit, page).articles ==>
              s.articleId in MatchingIds(db, filter) && s == Summarize(db, s.articleId)
  {
    var p := ListingPage(db, filter, key, dir, limit, page);
    var all := Listing(db, filter, key, dir);
    forall s | s in p.articles
      ensures s in all
    {
      var i :| 0 <= i < |p.articles| && p.articles[i] == s;
      assert all[Offset(limit, page) + i] == s;
    }
  }

  /** One page of the listing, with the size of the whole listing. */
  function ListingPage(db: Db, filter: Option<string>, key: SortKey, dir: Direction,
                       limit: nat, page: int): (r: ArticlePage)
    requires WellFormed(db) && limit > 0 && page >= 1
    ensures
      var all := Listing(db, filter, key, dir);
      && |r.articles| <= limit
      && r.totalCount == |all| == |MatchingIds(db, filter)|
      && Sorted(Order(key, dir), r.articles)
      && (forall i :: 0 <= i < |r.articles| ==>
            Offset(limit, page) + i < |all| && r.articles[i] == all[Offset(limit, page) + i])
      && (Offset(limit, page) + limit <= |all| ==> |r.articles| == limit)
      && (Offset(limit, page) < |all| < Offset(limit, page) + limit ==> |r.articles| == |all| - Offset(limit, page))
      && (Offset(limit, page) >= |all| ==> r.articles == [])
  {
    var all := Listing(db, filter, key, dir);
    PageOfSorted(Order(key, dir), all, limit, page);
    ArticlePage(Paginate(all, limit, page), |MatchingIds(db, filter)|)
  }

  // ---- fetchComments ----

  /** ORDER BY created_at DESC, as a comparison. */
  function NewestFirst(): (Comment, Comment) -> bool {
    (a: Comment, b: Comment) => a.createdAt >= b.createdAt
  }

  /** Every comment of one article, newest first; comments with the same
      created_at keep primary-key order. */
  function CommentListing(db: Db, articleId: int): (r: seq<Comment>)
    requires WellFormed(db)
    ensures |r| == CommentCount(db, articleId)
    ensures forall c :: c in r ==> c.commentId in db.comments && db.comments[c.commentId] == c && c.articleId == articleId
    ensures forall id :: id in CommentIdsOf(db, articleId) ==> db.comments[id] in r
    ensures Sorted(NewestFirst(), r)
  {
    var rows := ScanComments(db, articleId);
    SortSorted(NewestFirst(), rows);
    SortKeepsRows(NewestFirst(), rows);
    Sort(NewestFirst(), rows)
  }

  /** The comments of one article in primary-key order. */
  function ScanComments(db: Db, articleId: int): (r: seq<Comment>)
    requires WellFormed(db)
    ensures |r| == CommentCount(db, articleId)
    ensures forall c :: c in r ==> c.commentId in db.comments && db.comments[c.commentId] == c && c.articleId == articleId
    ensures forall id :: id in CommentIdsOf(db, articleId) ==> db.comments[id] in r
  {
    var ids := SortedIds(CommentIdsOf(db, articleId));
    assert forall i :: 0 <= i < |ids| ==> ids[i] in CommentIdsOf(db, articleId);
    var r := seq(|ids|, i requires 0 <= i < |ids| => db.comments[ids[i]]);
    MappedCovers(ids, r, k requires k in db.comments => db.comments[k]);
    r
  }

  /** fetchComments: 400 for an id that is not a number, then 400 for a bad
      page size, then 404 for an absent article; otherwise page `page` of the
      article's comments, newest first. `id` is None when the path segment is
      not a number. */
  function FetchComments(db: Db, id: Option<int>, pageLimit: Option<int>, page: int): (r: Result<seq<Comment>>)
    requires WellFormed(db) && page >= 1
    ensures id.None? ==> r == Err(BadRequest)
    ensures id.Some? && ParseLimit(pageLimit).Err? ==> r == Err(BadRequest)
    ensures id.Some? && ParseLimit(pageLimit).Ok? ==>
              (r.Err? <==> !HasRow(db, ArticleById(id.value))) && (r.Err? ==> r.error == NotFound)
    ensures r.Ok? ==>
      && id.Some?
      && |r.value| <= ParseLimit(pageLimit).value
      && (forall c :: c in r.value ==>
            c.articleId == id.value && c.commentId in db.comments && db.comments[c.commentId] == c)
      && (forall i, j :: 0 <= i < j < |r.value| ==> r.value[i].createdAt >= r.value[j].createdAt)
      && (CommentCount(db, id.value) == 0 ==> r.value == [])
    ensures r.Ok? ==>
      var limit, all := ParseLimit(pageLimit).value, CommentListing(db, id.value);
      && (forall i :: 0 <= i < |r.value| ==>
            Offset(limit, page) + i < |all| && r.value[i] == all[Offset(limit, page) + i])
      && (Offset(limit, page) + limit <= |all| ==> |r.value| == limit)
      && (Offset(limit, page) < |all| < Offset(limit, page) + limit ==> |r.value| == |all| - Offset(limit, page))
      && (Offset(limit, page) >= |all| ==> r.value == [])
  {
    if id.None? then Err(BadRequest)
    else
      var limit := ParseLimit(pageLimit);
      if limit.Err? then Err(limit.error)
      else if CheckExists(db, ArticleById(id.value)).Fail? then Err(NotFound)
      else Ok(CommentPage(db, id.value, limit.value, page))
  }

  /** One page of an article's comments, newest first. */
  function CommentPage(db: Db, articleId: int, limit: nat, page: int): (r: seq<Comment>)
    requires WellFormed(db) && limit > 0 && page >= 1
    ensures |r| <= limit
    ensures forall c :: c in r ==>
              c.articleId == articleId && c.commentId in db.comments && db.comments[c.commentId] == c
    ensures forall i, j :: 0 <= i < j < |r| ==> r[i].createdAt >= r[j].createdAt
    ensures CommentCount(db, articleId) == 0 ==> r == []
    ensures var all := CommentListing(db, articleId);
      && (forall i :: 0 <= i < |r| ==> Offset(limit, page) + i < |all| && r[i] == all[Offset(limit, page) + i])
      && (Offset(limit, page) + limit <= |all| ==> |r| == limit)
      && (Offset(limit, page) < |all| < Offset(limit, page) + limit ==> |r| == |all| - Offset(limit, page))
      && (Offset(limit, page) >= |all| ==> r == [])
  {
    var all := CommentListing(db, articleId);
    var r := Paginate(all, limit, page);
    PageOfSorted(NewestFirst(), all, limit, page);
    assert forall i, j :: 0 <= i < j < |r| ==> NewestFirst()(r[i], r[j]);
    assert forall c :: c in r ==> c in all;
    r
  }
}
