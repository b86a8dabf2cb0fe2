/** `updatePoints`, the administrator's bulk scoring: each `(fileKey, points)`
    input pair sets `points` on every submission whose file key contains the
    pair's fragment, in one `UPDATE ... FROM (VALUES ...)` statement whose
    affected-row count decides the reply. */
module UpdatePoints {
  import opened Common
  import opened Text
  import opened Entities
  import Middleware
  import UploadKey

  /** `UpdatePointsInput`: a file-key fragment and the points to give. */
  datatype PointsRow = PointsRow(fileKey: string, points: int)

  const UpdateSucceeded :=
    MessageField("Update Scores Success", "Successfully updated user scores")
  const FailField := "Update Scores Fail"
  /** How `${error}` prints the error thrown when no row changed. */
  const NoRowsUpdated := "Error: No rows updated"
  /** How `${error}` prints the ORM's query error for a `VALUES` list with
      no tuples: the error's class name, then the database's message. */
  const EmptyValuesList := "QueryFailedError: syntax error at or near \")\""

  function Failed(err: string): MessageField {
    MessageField(FailField, "Failed to update scores: " + err)
  }

  predicate Matches(s: Submission, row: PointsRow) {
    Contains(s.fileKey, row.fileKey)
  }

  predicate MatchesAny(s: Submission, rows: seq<PointsRow>) {
    exists j :: 0 <= j < |rows| && Matches(s, rows[j])
  }

  /** The points a row of the statement's join gives `key`: those of the first
      pair whose fragment it contains. */
  function MatchedPoints(rows: seq<PointsRow>, s: Submission): (r: Option<int>)
    ensures r.None? <==> !MatchesAny(s, rows)
    ensures r.Some? ==> exists j :: 0 <= j < |rows| && Matches(s, rows[j]) && rows[j].points == r.value
  {
    if |rows| == 0 then None
    else if Matches(s, rows[0]) then Some(rows[0].points)
    else
      var r := MatchedPoints(rows[1..], s);
      assert MatchesAny(s, rows[1..]) ==> MatchesAny(s, rows);
      assert MatchesAny(s, rows) ==> MatchesAny(s, rows[1..]) by {
        if MatchesAny(s, rows) {
          var j :| 0 <= j < |rows| && Matches(s, rows[j]);
          assert j != 0 && rows[1..][j - 1] == rows[j];
        }
      }
      r
  }

  /** The table after the statement: a matching submission takes the points
      of a pair it matches, all its other columns kept; the rest are as they
      were. */
  function ApplyPoints(subs: seq<Submission>, rows: seq<PointsRow>): (r: seq<Submission>)
    ensures |r| == |subs|
    ensures forall i :: 0 <= i < |subs| ==> r[i] == subs[i].(points := r[i].points)
    ensures forall i :: 0 <= i < |subs| && !MatchesAny(subs[i], rows) ==> r[i] == subs[i]
    ensures forall i :: 0 <= i < |subs| && MatchesAny(subs[i], rows) ==>
              exists j :: 0 <= j < |rows| && Matches(subs[i], rows[j]) && rows[j].points == r[i].points
  {
    seq(|subs|, i requires 0 <= i < |subs| =>
      match MatchedPoints(rows, subs[i])
      case Some(p) => subs[i].(points := p)
      case None => subs[i])
  }

  /** The statement's affected-row count: each matching submission once. */
  function AffectedCount(subs: seq<Submission>, rows: seq<PointsRow>): (n: nat)
    ensures n <= |subs|
  {
    if |subs| == 0 then 0
    else (if MatchesAny(subs[0], rows) then 1 else 0) + AffectedCount(subs[1..], rows)
  }

  /** The count is non-zero exactly when some submission matches some pair. */
  lemma {:induction false} AffectedCountPositive(subs: seq<Submission>, rows: seq<PointsRow>)
    ensures AffectedCount(subs, rows) != 0 <==> exists i :: 0 <= i < |subs| && MatchesAny(subs[i], rows)
  {
    if |subs| > 0 {
      AffectedCountPositive(subs[1..], rows);
      if exists i :: 0 <= i < |subs| && MatchesAny(subs[i], rows) {
        var i :| 0 <= i < |subs| && MatchesAny(subs[i], rows);
        if i > 0 {
          assert subs[1..][i - 1] == subs[i];
        }
      }
      if exists i :: 0 <= i < |subs[1..]| && MatchesAny(subs[1..][i], rows) {
        var i :| 0 <= i < |subs[1..]| && MatchesAny(subs[1..][i], rows);
        assert subs[i + 1] == subs[1..][i];
      }
    }
  }

  /** `updatePoints(rows)` on its own, once the middleware has let it run.
      An empty list builds a malformed statement and fails. Otherwise every
      submission that contains some pair's fragment gets the points of one
      such pair and all other rows stay as they were; the reply is the
      success message exactly when at least one submission matched, and a
      failure leaves the database unchanged. */
  function UpdatePoints(db: Db, rows: seq<PointsRow>): (out: (Db, MessageField))
    ensures |rows| == 0 ==> out == (db, Failed(EmptyValuesList))
    ensures out.0.users == db.users && |out.0.submissions| == |db.submissions|
    ensures out.0.nextUserId == db.nextUserId && out.0.nextSubmissionId == db.nextSubmissionId
    ensures forall i :: 0 <= i < |db.submissions| && MatchesAny(db.submissions[i], rows) ==>
              exists j :: 0 <= j < |rows| && Matches(db.submissions[i], rows[j])
                && out.0.submissions[i] == db.submissions[i].(points := rows[j].points)
    ensures forall i :: 0 <= i < |db.submissions| && !MatchesAny(db.submissions[i], rows) ==>
              out.0.submissions[i] == db.submissions[i]
    ensures out.1 == UpdateSucceeded <==>
              exists i :: 0 <= i < |db.submissions| && MatchesAny(db.submissions[i], rows)
    ensures out.1 != UpdateSucceeded ==> out.1.field == FailField && out.0 == db
  {
    if |rows| == 0 then (db, Failed(EmptyValuesList))
    else
      var subs' := ApplyPoints(db.submissions, rows);
      AffectedCountPositive(db.submissions, rows);
      if AffectedCount(db.submissions, rows) != 0 then
        (db.(submissions := subs'), UpdateSucceeded)
      else
        assert subs' == db.submissions;
        (db.(submissions := subs'), Failed(NoRowsUpdated))
  }

  /** `updatePoints` behind `isAdmin`: refused, and the database untouched,
      unless the session belongs to an administrator. */
  function UpdatePointsAsAdmin(db: Db, session: Option<int>, rows: seq<PointsRow>)
    : (r: Result<(Db, MessageField)>)
    ensures !Middleware.SignedIn(session) ==> r == Thrown(Middleware.NotLoggedIn)
    ensures r.Ok? ==> r.value == UpdatePoints(db, rows)
    ensures r.Ok? <==>
              && Middleware.SignedIn(session)
              && FindUser(db.users, ById(session.value)).Some?
              && FindUser(db.users, ById(session.value)).value.isAdmin
  {
    Middleware.IsAdmin(db.users, session, () => UpdatePoints(db, rows))
  }

  /** When every pair a submission matches carries the same points, that is
      what the submission gets, whichever pair the statement joins it with. */
  lemma UnambiguousMatchSetsPoints(db: Db, rows: seq<PointsRow>, i: int, p: int)
    requires 0 <= i < |db.submissions| && MatchesAny(db.submissions[i], rows)
    requires forall j :: 0 <= j < |rows| && Matches(db.submissions[i], rows[j]) ==> rows[j].points == p
    ensures UpdatePoints(db, rows).0.submissions[i].points == p
  {
  }

  /** The unique id in an uploaded file's key is a fragment that finds that
      submission: scoring by id reaches the upload it names. */
  lemma UploadIdScoresItsSubmission(db: Db, i: int, path: string, uuid: string, fileName: string, p: int)
    requires 0 <= i < |db.submissions|
    requires db.submissions[i].fileKey == UploadKey.FileKey(path, uuid, fileName)
    ensures UpdatePoints(db, [PointsRow(uuid, p)]).0.submissions[i].points == p
    ensures UpdatePoints(db, [PointsRow(uuid, p)]).1 == UpdateSucceeded
  {
    assert Matches(db.submissions[i], [PointsRow(uuid, p)][0]);
  }

  /** The empty fragment is contained in every key, so it scores every row. */
  lemma EmptyFragmentMatchesAll(s: Submission)
    ensures Matches(s, PointsRow("", 0))
  {
    assert IsPrefix("", s.fileKey);
  }
}
