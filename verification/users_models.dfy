/** The user model layer: all users, and one user by username. */
module UsersModels {
  import opened Tables
  import opened ArticleQueries

  /** fetchUsers: every row of the users table. The query has no ORDER BY,
      so the rows come back as a set. */
  function FetchUsers(db: Db): (r: set<User>)
    requires WellFormed(db)
    ensures forall u :: u in r <==> u.username in db.users && db.users[u.username] == u
  {
    assert forall u :: u in db.users.Values ==> u.username in db.users && db.users[u.username] == u by {
      forall u | u in db.users.Values
        ensures u.username in db.users && db.users[u.username] == u
      {
        var k := KeyOf(db.users, u);
      }
    }
    db.users.Values
  }

  /** No two listed users share a username. */
  lemma ListedUsernamesUnique(db: Db, u: User, v: User)
    requires WellFormed(db)
    requires u in FetchUsers(db) && v in FetchUsers(db)
    requires u.username == v.username
    ensures u == v
  {
  }

  /** fetchUserByUsername: 404 when no user has that username, otherwise the
      user's row. */
  function FetchUserByUsername(db: Db, username: string): (r: Result<User>)
    requires WellFormed(db)
    ensures r.Err? <==> !HasRow(db, UserByUsername(username))
    ensures r.Err? ==> r.error == NotFound
    ensures r.Ok? ==> r.value in FetchUsers(db) && r.value.username == username
  {
    match CheckExists(db, UserByUsername(username))
    case Fail(e) => Err(e)
    case Pass =>
      KeyPresentIffHasRow(db, UserByUsername(username));
      Ok(db.users[username])
  }

  /** Every listed user is found by its username, and nothing else is. */
  lemma {:induction false} FetchedUserIsListed(db: Db, u: User)
    requires WellFormed(db)
    ensures u in FetchUsers(db) <==> FetchUserByUsername(db, u.username) == Ok(u)
  {
    if u in FetchUsers(db) {
      KeyPresentIffHasRow(db, UserByUsername(u.username));
      ListedUsernamesUnique(db, u, FetchUserByUsername(db, u.username).value);
    }
  }
}
