/** The two persisted entities, `User` and `Submissions`, the database that
    holds them, and the request context the resolvers run in (the session's
    `userId` and the Redis keys of password-reset tokens). */
module Entities {
  import opened Common

  /** A row of the `user` table. `password` holds the hash, never the text;
      it is a column but not a GraphQL field, so no response exposes it. */
  datatype User = User(
    id: int,
    username: string,
    firstName: string,
    lastName: string,
    email: string,
    password: string,
    totalPoints: int,
    isAdmin: bool)

  /** A row of the `submissions` table. `rank` is nullable; `creatorId` is the
      foreign key to the owning user. Only `id` is a key: nothing in the
      table keeps two rows from sharing a `(creatorId, question)` pair. */
  datatype Submission = Submission(
    id: int,
    rank: Option<int>,
    question: string,
    points: int,
    fileKey: string,
    updates: int,
    creatorId: int)

  /** Both tables, with the next value of each serial `id` sequence. */
  datatype Db = Db(
    users: seq<User>,
    submissions: seq<Submission>,
    nextUserId: int,
    nextSubmissionId: int)

  /** What a resolver may read and change: the database, the session's
      `userId` (absent until a login) and the Redis keys it writes. */
  datatype State = State(db: Db, session: Option<int>, redis: map<string, int>)

  /** A freshly inserted user: the column defaults give no points and no
      admin rights. */
  function NewUser(id: int, username: string, firstName: string, lastName: string,
                   email: string, password: string): (u: User)
    ensures u.id == id && u.username == username && u.email == email && u.password == password
    ensures u.firstName == firstName && u.lastName == lastName
    ensures u.totalPoints == 0 && !u.isAdmin
  {
    User(id, username, firstName, lastName, email, password, 0, false)
  }

  /** A freshly inserted submission: no rank, no points, no updates yet. */
  function NewSubmission(id: int, question: string, fileKey: string, creatorId: int): (s: Submission)
    ensures s.id == id && s.question == question && s.fileKey == fileKey && s.creatorId == creatorId
    ensures s.rank.None? && s.points == 0 && s.updates == 0
  {
    Submission(id, None, question, 0, fileKey, 0, creatorId)
  }

  /** The columns the `where` clause of a user lookup can name. */
  datatype UserKey = ById(id: int) | ByUsername(username: string) | ByEmail(email: string)

  predicate KeyMatches(u: User, k: UserKey) {
    match k
    case ById(id) => u.id == id
    case ByUsername(name) => u.username == name
    case ByEmail(email) => u.email == email
  }

  /** `User.findOne({ where: k })`: the first row that matches, if any. */
  function FindUser(users: seq<User>, k: UserKey): (r: Option<User>)
    ensures r.Some? ==> r.value in users && KeyMatches(r.value, k)
    ensures r.None? <==> forall i :: 0 <= i < |users| ==> !KeyMatches(users[i], k)
  {
    if |users| == 0 then None
    else if KeyMatches(users[0], k) then Some(users[0])
    else FindUser(users[1..], k)
  }

  /** The unique constraints on `username` and `email`, and the primary key. */
  predicate UsersUnique(users: seq<User>) {
    forall i, j :: 0 <= i < j < |users| ==>
      && users[i].id != users[j].id
      && users[i].username != users[j].username
      && users[i].email != users[j].email
  }

  /** Where the constraints hold, a lookup by any key column finds the one
      row that has the value. */
  lemma {:induction false} FindUserUnique(users: seq<User>, k: UserKey, i: int)
    requires UsersUnique(users)
    requires 0 <= i < |users| && KeyMatches(users[i], k)
    ensures FindUser(users, k) == Some(users[i])
  {
    if i > 0 {
      assert !KeyMatches(users[0], k) by {
        assert users[0].id != users[i].id;
        assert users[0].username != users[i].username;
        assert users[0].email != users[i].email;
      }
      assert users[1..][i - 1] == users[i];
      FindUserUnique(users[1..], k, i - 1);
    }
  }

  predicate HasUser(users: seq<User>, id: int) {
    exists j :: 0 <= j < |users| && users[j].id == id
  }

  predicate SubmissionIdsUnique(subs: seq<Submission>) {
    forall i, j :: 0 <= i < j < |subs| ==> subs[i].id != subs[j].id
  }

  /** What the schema guarantees of every reachable database: the key and
      unique constraints, serial ids below the sequences' next values, and a
      `creatorId` on every submission that references an existing user. So
      the next value of either sequence is free for an insert. */
  predicate Valid(db: Db)
    ensures Valid(db) ==> forall i :: 0 <= i < |db.users| ==> db.users[i].id != db.nextUserId
    ensures Valid(db) ==> forall i :: 0 <= i < |db.submissions| ==> db.submissions[i].id != db.nextSubmissionId
  {
    && 0 < db.nextUserId && 0 < db.nextSubmissionId
    && UsersUnique(db.users)
    && (forall i :: 0 <= i < |db.users| ==> 0 < db.users[i].id < db.nextUserId)
    && SubmissionIdsUnique(db.submissions)
    && (forall i :: 0 <= i < |db.submissions| ==>
          && 0 < db.submissions[i].id < db.nextSubmissionId
          && HasUser(db.users, db.submissions[i].creatorId))
  }
}
