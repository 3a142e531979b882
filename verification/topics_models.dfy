/** The topic model layer: all topics, and a new topic. */
module TopicsModels {
  import opened Tables
  import opened ArticleQueries
  import opened ArticleStore

  /** selectTopics: every row of the topics table. The query has no ORDER BY,
      so the rows come back as a set. */
  function SelectTopics(db: Db): (r: set<Topic>)
    ensures forall t :: t in r <==> t.slug in db.topics && db.topics[t.slug] == t.description
    ensures forall slug :: slug in db.topics ==> Topic(slug, db.topics[slug]) in r
  {
    set slug | slug in db.topics :: Topic(slug, db.topics[slug])
  }

  /** INSERT INTO topics of one new row. */
  function InsertTopic(db: Db, t: Topic): (r: Db)
    requires t.slug !in db.topics
    ensures r.articles == db.articles && r.comments == db.comments && r.users == db.users
    ensures r.topics.Keys == db.topics.Keys + {t.slug}
    ensures r.topics[t.slug] == t.description
    ensures forall slug :: slug in db.topics ==> r.topics[slug] == db.topics[slug]
  {
    db.(topics := db.topics[t.slug := t.description])
  }

  /** After a topic is added, the listing holds exactly the topics it held
      before and the new one. */
  lemma {:induction false} InsertedTopicSelected(db: Db, t: Topic)
    requires t.slug !in db.topics
    ensures SelectTopics(InsertTopic(db, t)) == SelectTopics(db) + {t}
  {
    var after := InsertTopic(db, t);
    forall u
      ensures u in SelectTopics(after) <==> u in SelectTopics(db) + {t}
    {
      if u.slug == t.slug {
        assert u in SelectTopics(db) ==> u.slug in db.topics;
      }
    }
  }

  /** After a topic is added, the existence check articles are posted under
      passes for it, and for no slug it did not already pass for besides. */
  lemma InsertedTopicPassesCheck(db: Db, t: Topic, slug: string)
    requires WellFormed(db) && t.slug !in db.topics
    ensures WellFormed(InsertTopic(db, t))
    ensures CheckExists(InsertTopic(db, t), TopicBySlug(slug)) == Pass <==>
              slug == t.slug || CheckExists(db, TopicBySlug(slug)) == Pass
  {
  }

  /** postNewTopic: 400 unless slug and description are both non-empty
      strings; a slug already in use is refused by the table's primary key;
      otherwise the new row is returned. */
  method PostNewTopic(store: Store, slug: Value, description: Value) returns (r: Result<Topic>)
    requires store.Valid()
    modifies store`topics
    ensures store.Valid()
    ensures r == Err(BadRequest) <==> !(IsText(slug) && IsText(description))
    ensures r == Err(DbError) <==> IsText(slug) && IsText(description) && slug.s in old(store.topics)
    ensures r.Err? ==> r.error != NotFound && store.topics == old(store.topics)
    ensures r.Ok? ==> slug.Str? && description.Str? && slug.s !in old(store.topics)
    ensures r.Ok? ==>
              && r.value == Topic(slug.s, description.s)
              && store.Snapshot() == InsertTopic(old(store.Snapshot()), r.value)
  {
    if !IsText(slug) || !IsText(description) {
      return Err(BadRequest);
    }
    if slug.s in store.topics {
      return Err(DbError);
    }
    var row := Topic(slug.s, description.s);
    store.topics := store.topics[row.slug := row.description];
    r := Ok(row);
  }
}
