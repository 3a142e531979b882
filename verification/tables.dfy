/** The rows of the four tables the model layer works on, a snapshot of the
    whole store, and the values the model functions accept and return. */
module Tables {

  datatype Option<T> = None | Some(value: T)

  /** BadRequest is status 400 and NotFound is status 404, both with the
      messages the model layer rejects with. DbError stands for a statement
      that the database itself refuses (a duplicate primary key); the status it
      receives is decided by an error handler outside the model layer. */
  datatype Error = BadRequest | NotFound | DbError

  datatype Result<T> = Ok(value: T) | Err(error: Error)

  /** What an existence check resolves to: nothing, or a rejection. */
  datatype Outcome = Pass | Fail(error: Error)

  /** A value taken from a JSON request body, as far as JavaScript's
      truthiness and `typeof` tell its kinds apart. Compound is an object or
      an array. */
  datatype Value = Missing | Null | Bool(b: bool) | Num(n: int) | Str(s: string) | Compound

  /** JavaScript truthiness of a body value. */
  predicate Truthy(v: Value) {
    match v
    case Missing => false
    case Null => false
    case Bool(b) => b
    case Num(n) => n != 0
    case Str(s) => s != ""
    case Compound => true
  }

  /** Passes both `!v` and `typeof v !== "string"`: a non-empty string. */
  predicate IsText(v: Value) {
    v.Str? && v.s != ""
  }

  /** A text parameter that is present and truthy (not undefined, not ""). */
  predicate Filled(o: Option<string>) {
    o.Some? && o.value != ""
  }

  datatype Article = Article(
    articleId: int,
    author: string,
    title: string,
    body: string,
    topic: string,
    createdAt: int,
    votes: int,
    articleImgUrl: string)

  datatype Comment = Comment(
    commentId: int,
    articleId: int,
    author: string,
    body: string,
    votes: int,
    createdAt: int)

  datatype Topic = Topic(slug: string, description: string)

  datatype User = User(username: string, name: string, avatarUrl: string)

  /** One snapshot of the store: articles and comments by id, topic
      descriptions by slug, users by username. */
  datatype Db = Db(
    articles: map<int, Article>,
    comments: map<int, Comment>,
    topics: map<string, string>,
    users: map<string, User>)

  /** Every row is filed under its own primary key. */
  ghost predicate WellFormed(db: Db) {
    && (forall id :: id in db.articles ==> db.articles[id].articleId == id)
    && (forall id :: id in db.comments ==> db.comments[id].commentId == id)
    && (forall name :: name in db.users ==> db.users[name].username == name)
  }
}
