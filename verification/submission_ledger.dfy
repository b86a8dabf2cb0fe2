/** The submission ledger: `existingSubmission`, which tells a client whether
    it already has a submission for a question and how many updates it has
    used, and `createSubmission`, which either rewrites that submission or
    inserts a new one. The update cap is enforced by the first alone; the
    second trusts the `updates` count its caller sends. */
module SubmissionLedger {
  import opened Common
  import opened Entities

  const MAX_UPDATES := 3

  const MaxSubmissions :=
    MessageField("Max Submissions", "You have exceeded the max number of submissions.")
  const UpdateSucceeded :=
    MessageField("Update Submissions", "Existing submission succesfully updated.")

  /** `ExistingSubmissionResponse`; every field but `existing` may be absent. */
  datatype ExistingResponse = ExistingResponse(
    existing: bool,
    id: Option<int>,
    creatorId: Option<int>,
    updates: Option<int>,
    fileKey: Option<string>,
    errors: Option<seq<MessageField>>)

  const NotExisting := ExistingResponse(false, None, None, None, None, None)
  const AtCap := ExistingResponse(true, None, None, None, None, Some([MaxSubmissions]))

  /** The lookup `{ creatorId: session.userId, question }`. With no user id in
      the session the property is `undefined`, which the ORM leaves out of the
      query, so only the question is compared. */
  predicate Owned(s: Submission, creator: Option<int>, question: string) {
    (creator.None? || s.creatorId == creator.value) && s.question == question
  }

  /** `Submissions.findOne(...)`: the first row the lookup matches, if any. */
  function FindSubmission(subs: seq<Submission>, creator: Option<int>, question: string)
    : (r: Option<Submission>)
    ensures r.Some? ==> r.value in subs && Owned(r.value, creator, question)
    ensures r.None? <==> forall i :: 0 <= i < |subs| ==> !Owned(subs[i], creator, question)
  {
    if |subs| == 0 then None
    else if Owned(subs[0], creator, question) then Some(subs[0])
    else FindSubmission(subs[1..], creator, question)
  }

  /** The pair `(creatorId, question)` names at most one row. Nothing in the
      schema enforces this; only the intended calling sequence keeps it. */
  predicate AtMostOnePerPair(subs: seq<Submission>) {
    forall i, j :: 0 <= i < j < |subs| ==>
      !(subs[i].creatorId == subs[j].creatorId && subs[i].question == subs[j].question)
  }

  /** Every row's update count is within `0..MAX_UPDATES`. */
  predicate WithinCap(subs: seq<Submission>) {
    forall i :: 0 <= i < |subs| ==> 0 <= subs[i].updates <= MAX_UPDATES
  }

  lemma {:induction false} FindSubmissionUnique(subs: seq<Submission>, uid: int, question: string, i: int)
    requires AtMostOnePerPair(subs)
    requires 0 <= i < |subs| && Owned(subs[i], Some(uid), question)
    ensures FindSubmission(subs, Some(uid), question) == Some(subs[i])
  {
    if i > 0 {
      assert !Owned(subs[0], Some(uid), question);
      assert subs[1..][i - 1] == subs[i];
      FindSubmissionUnique(subs[1..], uid, question, i - 1);
    }
  }

  /** `existingSubmission(question)`: no matching row gives `existing: false`
      and nothing else; a matching row below the cap gives its id, update
      count and file key, with the session's id as `creatorId`; a matching
      row at or above the cap gives the "Max Submissions" error and
      `existing: true` but none of the row's data. It writes nothing. */
  function ExistingSubmission(db: Db, session: Option<int>, question: string): (r: ExistingResponse)
    ensures (forall i :: 0 <= i < |db.submissions| ==> !Owned(db.submissions[i], session, question))
            <==> r == NotExisting
    ensures r.existing && r.errors.None? ==>
              exists i :: 0 <= i < |db.submissions|
                && Owned(db.submissions[i], session, question)
                && db.submissions[i].updates < MAX_UPDATES
                && r == ExistingResponse(true, Some(db.submissions[i].id), session,
                                         Some(db.submissions[i].updates),
                                         Some(db.submissions[i].fileKey), None)
    ensures r.errors.Some? ==>
              && r == AtCap
              && exists i :: 0 <= i < |db.submissions|
                   && Owned(db.submissions[i], session, question)
                   && db.submissions[i].updates >= MAX_UPDATES
    ensures r == NotExisting || r == AtCap || (r.existing && r.errors.None?)
  {
    match FindSubmission(db.submissions, session, question)
    case None => NotExisting
    case Some(s) =>
      if s.updates < MAX_UPDATES then
        ExistingResponse(true, Some(s.id), session, Some(s.updates), Some(s.fileKey), None)
      else AtCap
  }

  /** Where a user has one submission for a question, the answer is decided
      by that row's update count alone. */
  lemma ExistingSubmissionOfRow(db: Db, uid: int, question: string, i: int)
    requires AtMostOnePerPair(db.submissions)
    requires 0 <= i < |db.submissions| && Owned(db.submissions[i], Some(uid), question)
    ensures var s := db.submissions[i];
            ExistingSubmission(db, Some(uid), question)
            == if s.updates < MAX_UPDATES
               then ExistingResponse(true, Some(s.id), Some(uid), Some(s.updates), Some(s.fileKey), None)
               else AtCap
  {
    FindSubmissionUnique(db.submissions, uid, question, i);
  }

  /** What a client sends as `updates`: nothing (`undefined`), an explicit
      `null`, or a number. */
  datatype SentCount = Omitted | Null | Count(value: int)

  /** How a client passes on an optional count it was given. */
  function Sent(o: Option<int>): SentCount {
    if o.Some? then Count(o.value) else Omitted
  }

  /** The fields of `CreateSubmissionInput` the resolver reads. `id`,
      `creatorId` and `updates` may be absent; `existing` is not a column. */
  datatype CreateSubmissionInput = CreateSubmissionInput(
    existing: bool,
    id: Option<int>,
    creatorId: Option<int>,
    question: string,
    fileKey: string,
    updates: SentCount)

  /** The guard `options.existing && options.updates !== undefined`: an
      explicit `null` passes it. */
  predicate TakesUpdateBranch(options: CreateSubmissionInput) {
    options.existing && !options.updates.Omitted?
  }

  /** `options.updates + 1` in JavaScript, where `null + 1` is 1. */
  function NextCount(c: SentCount): int
    requires !c.Omitted?
  {
    if c.Null? then 1 else c.value + 1
  }

  /** `save()` loads a row by the entity's `id`: the client sent one and a
      row holds it. */
  predicate LoadsRow(subs: seq<Submission>, options: CreateSubmissionInput) {
    options.id.Some? && exists j :: 0 <= j < |subs| && subs[j].id == options.id.value
  }

  /** `CreateSubmissionResponse`, or the error `save()` throws. */
  datatype CreateResponse =
    | Updated(success: seq<MessageField>)
    | Saved(submission: Submission)
    | SaveFailed

  /** The `where` of the update branch. Unlike `findOne`, `update` binds
      every property of its criteria: one the client left out is `undefined`,
      compares as `= NULL` and so matches no row. */
  predicate UpdateTarget(s: Submission, options: CreateSubmissionInput) {
    && options.id.Some? && s.id == options.id.value
    && options.creatorId.Some? && s.creatorId == options.creatorId.value
    && s.question == options.question
  }

  /** `Submissions.update(where, { updates, fileKey })` applied to every row. */
  function RewriteMatching(subs: seq<Submission>, options: CreateSubmissionInput, updates: int)
    : seq<Submission>
  {
    seq(|subs|, i requires 0 <= i < |subs| =>
      if UpdateTarget(subs[i], options)
      then subs[i].(updates := updates, fileKey := options.fileKey)
      else subs[i])
  }

  /** An insert can succeed only with a signed-in creator that exists:
      `creatorId` is a non-null foreign key to `user`. */
  predicate CanInsertFor(db: Db, session: Option<int>) {
    session.Some? && HasUser(db.users, session.value)
  }

  /** The row `save()` loads by primary key, if any. */
  function IndexOfId(subs: seq<Submission>, id: int): (r: Option<nat>)
    ensures r.Some? ==> r.value < |subs| && subs[r.value].id == id
    ensures r.None? <==> forall i :: 0 <= i < |subs| ==> subs[i].id != id
  {
    if |subs| == 0 then None
    else if subs[0].id == id then Some(0)
    else match IndexOfId(subs[1..], id)
      case None => None
      case Some(j) => Some(j + 1)
  }

  /** What `save()` writes over a row it loaded: the entity's defined
      columns. `updates` is reset to 0; `creatorId` becomes the session's, or
      is left alone when the session has none, since an `undefined` property
      is not written. `points` and `rank` are not sent and keep their values. */
  function Overwrite(s: Submission, options: CreateSubmissionInput, session: Option<int>): (r: Submission)
    ensures r.id == s.id && r.points == s.points && r.rank == s.rank
    ensures r.question == options.question && r.fileKey == options.fileKey && r.updates == 0
    ensures session.Some? ==> r.creatorId == session.value
    ensures session.None? ==> r.creatorId == s.creatorId
  {
    s.(question := options.question, fileKey := options.fileKey, updates := 0,
       creatorId := if session.Some? then session.value else s.creatorId)
  }

  /** `createSubmission(options)`.
      - With `existing` set and `updates` not `undefined` it sets
        `updates := options.updates + 1` and the new file key on exactly the
        rows matching `id`, `creatorId` and `question` (none at all when `id`
        or `creatorId` was not sent), and reports success even when none
        match; it never checks the cap.
      - Otherwise it `save()`s an entity built from the options, with
        `updates: 0` and the session's user as `creatorId`. An `id` naming
        an existing row overwrites that row, unless the session's user does
        not exist. Any other entity is inserted: PostgreSQL's INSERT leaves
        out the generated `id`, so the row takes the sequence's next value
        whatever `id` the client sent, and the sequence advances even when
        the insert fails. An insert fails without a signed-in creator that
        exists, and on the key when some row already holds the value. */
  function CreateSubmission(db: Db, session: Option<int>, options: CreateSubmissionInput)
    : (out: (Db, CreateResponse))
    ensures out.0.users == db.users && out.0.nextUserId == db.nextUserId
    ensures TakesUpdateBranch(options) ==>
              && out.1 == Updated([UpdateSucceeded])
              && out.0.nextSubmissionId == db.nextSubmissionId
              && |out.0.submissions| == |db.submissions|
              && (forall i :: 0 <= i < |db.submissions| && UpdateTarget(db.submissions[i], options) ==>
                    out.0.submissions[i]
                    == db.submissions[i].(updates := NextCount(options.updates), fileKey := options.fileKey))
              && (forall i :: 0 <= i < |db.submissions| && !UpdateTarget(db.submissions[i], options) ==>
                    out.0.submissions[i] == db.submissions[i])
    ensures !TakesUpdateBranch(options) && LoadsRow(db.submissions, options) ==>
              if session.Some? && !HasUser(db.users, session.value) then out == (db, SaveFailed)
              else exists j :: 0 <= j < |db.submissions| && db.submissions[j].id == options.id.value
                     && out.1 == Saved(Overwrite(db.submissions[j], options, session))
                     && out.0 == db.(submissions := db.submissions[j := Overwrite(db.submissions[j], options, session)])
    ensures !TakesUpdateBranch(options) && !LoadsRow(db.submissions, options) ==>
              var n := db.nextSubmissionId;
              if CanInsertFor(db, session) && (forall j :: 0 <= j < |db.submissions| ==> db.submissions[j].id != n)
              then var row := NewSubmission(n, options.question, options.fileKey, session.value);
                   out == (db.(submissions := db.submissions + [row], nextSubmissionId := n + 1), Saved(row))
              else out == (db.(nextSubmissionId := n + 1), SaveFailed)
  {
    if TakesUpdateBranch(options) then
      (db.(submissions := RewriteMatching(db.submissions, options, NextCount(options.updates))),
       Updated([UpdateSucceeded]))
    else
      var loaded := if options.id.Some? then IndexOfId(db.submissions, options.id.value) else None;
      if loaded.Some? then
        if session.Some? && !HasUser(db.users, session.value) then (db, SaveFailed)
        else
          var row := Overwrite(db.submissions[loaded.value], options, session);
          (db.(submissions := db.submissions[loaded.value := row]), Saved(row))
      else
        var n := db.nextSubmissionId;
        if CanInsertFor(db, session) && IndexOfId(db.submissions, n).None? then
          var row := NewSubmission(n, options.question, options.fileKey, session.value);
          (db.(submissions := db.submissions + [row], nextSubmissionId := n + 1), Saved(row))
        else (db.(nextSubmissionId := n + 1), SaveFailed)
  }

  /** The update branch keeps ids and creators, so the guarantees. */
  lemma RewriteKeepsValid(db: Db, options: CreateSubmissionInput, updates: int)
    requires Valid(db)
    ensures Valid(db.(submissions := RewriteMatching(db.submissions, options, updates)))
  {
    var subs' := RewriteMatching(db.submissions, options, updates);
    forall i | 0 <= i < |subs'|
      ensures subs'[i].id == db.submissions[i].id
      ensures subs'[i].creatorId == db.submissions[i].creatorId
    {
    }
  }

  /** An overwrite keeps the row's id and gives it an existing creator. */
  lemma OverwriteKeepsValid(db: Db, j: int, options: CreateSubmissionInput, session: Option<int>)
    requires Valid(db) && 0 <= j < |db.submissions|
    requires session.None? || HasUser(db.users, session.value)
    ensures Valid(db.(submissions := db.submissions[j := Overwrite(db.submissions[j], options, session)]))
  {
    var subs' := db.submissions[j := Overwrite(db.submissions[j], options, session)];
    forall i | 0 <= i < |subs'|
      ensures subs'[i].id == db.submissions[i].id
      ensures HasUser(db.users, subs'[i].creatorId)
    {
    }
  }

  /** Appending a row under the sequence's value for an existing creator,
      and advancing the sequence. */
  lemma AppendKeepsValid(db: Db, row: Submission)
    requires Valid(db) && HasUser(db.users, row.creatorId) && row.id == db.nextSubmissionId
    ensures Valid(db.(submissions := db.submissions + [row], nextSubmissionId := row.id + 1))
  {
    var subs' := db.submissions + [row];
    forall i | 0 <= i < |db.submissions|
      ensures subs'[i] == db.submissions[i]
    {
    }
  }

  /** No path through `createSubmission` breaks the schema's guarantees. */
  lemma CreateSubmissionKeepsValid(db: Db, session: Option<int>, options: CreateSubmissionInput)
    requires Valid(db)
    ensures Valid(CreateSubmission(db, session, options).0)
  {
    var subs := db.submissions;
    var loaded := if options.id.Some? then IndexOfId(subs, options.id.value) else None;
    if TakesUpdateBranch(options) {
      RewriteKeepsValid(db, options, NextCount(options.updates));
    } else if loaded.Some? {
      if !(session.Some? && !HasUser(db.users, session.value)) {
        OverwriteKeepsValid(db, loaded.value, options, session);
      }
    } else if CanInsertFor(db, session) {
      AppendKeepsValid(db, NewSubmission(db.nextSubmissionId, options.question, options.fileKey, session.value));
    }
  }

  /** Called directly, `createSubmission` takes the client's word for the
      update count: an update that names a row at the cap and sends the cap
      as `updates` leaves that row above the cap. */
  lemma DirectCallExceedsCap(db: Db, session: Option<int>, options: CreateSubmissionInput, i: int)
    requires options.id.Some? && options.creatorId.Some?
    requires 0 <= i < |db.submissions| && UpdateTarget(db.submissions[i], options)
    requires options.existing && options.updates == Count(MAX_UPDATES)
    ensures CreateSubmission(db, session, options).0.submissions[i].updates == MAX_UPDATES + 1
    ensures !WithinCap(CreateSubmission(db, session, options).0.submissions)
  {
    var subs' := CreateSubmission(db, session, options).0.submissions;
    assert subs'[i].updates == MAX_UPDATES + 1;
  }

  /** An update whose criteria leave out `id` or `creatorId` compares that
      column with NULL: it touches no row, yet reports success. */
  lemma UnsentCriterionMatchesNothing(db: Db, session: Option<int>, options: CreateSubmissionInput)
    requires TakesUpdateBranch(options)
    requires options.id.None? || options.creatorId.None?
    ensures CreateSubmission(db, session, options) == (db, Updated([UpdateSucceeded]))
  {
    var subs' := CreateSubmission(db, session, options).0.submissions;
    assert subs' == db.submissions;
  }

  /** Called directly without `existing`, and with an id no row holds or
      none, `createSubmission` inserts even when the user already has a
      submission for the question, leaving two. */
  lemma DirectCallDuplicatesPair(db: Db, uid: int, options: CreateSubmissionInput, i: int)
    requires Valid(db) && HasUser(db.users, uid)
    requires 0 <= i < |db.submissions| && Owned(db.submissions[i], Some(uid), options.question)
    requires !options.existing
    requires !LoadsRow(db.submissions, options)
    ensures !AtMostOnePerPair(CreateSubmission(db, Some(uid), options).0.submissions)
  {
    var subs' := CreateSubmission(db, Some(uid), options).0.submissions;
    assert subs'[i] == db.submissions[i];
    assert subs'[|db.submissions|].creatorId == uid;
  }

  /** Called directly without `existing` but with the id of the user's row,
      `createSubmission` overwrites that row and resets its update count,
      so a submission at the cap is offered further updates again. */
  lemma DirectCallResetsCount(db: Db, uid: int, question: string, fileKey: string, i: int)
    requires Valid(db) && AtMostOnePerPair(db.submissions)
    requires 0 <= i < |db.submissions| && Owned(db.submissions[i], Some(uid), question)
    requires db.submissions[i].updates >= MAX_UPDATES
    ensures ExistingSubmission(db, Some(uid), question) == AtCap
    ensures var options := CreateSubmissionInput(false, Some(db.submissions[i].id), None, question, fileKey, Omitted);
            var db' := CreateSubmission(db, Some(uid), options).0;
            && db'.submissions == db.submissions[i := db.submissions[i].(fileKey := fileKey, updates := 0)]
            && ExistingSubmission(db', Some(uid), question)
               == ExistingResponse(true, Some(db.submissions[i].id), Some(uid), Some(0), Some(fileKey), None)
  {
    var subs := db.submissions;
    ExistingSubmissionOfRow(db, uid, question, i);
    var options := CreateSubmissionInput(false, Some(subs[i].id), None, question, fileKey, Omitted);
    var db' := CreateSubmission(db, Some(uid), options).0;
    assert HasUser(db.users, uid);
    ResaveOverwrites(db, Some(uid), options, i);
    assert db'.submissions == subs[i := subs[i].(fileKey := fileKey, updates := 0)];
    SamePairsKeepLedger(subs, db'.submissions);
    ExistingSubmissionOfRow(db', uid, question, i);
  }

  /** Saving with the id of row `i`, when ids are unique, overwrites that
      very row. */
  lemma ResaveOverwrites(db: Db, session: Option<int>, options: CreateSubmissionInput, i: int)
    requires SubmissionIdsUnique(db.submissions) && 0 <= i < |db.submissions|
    requires !TakesUpdateBranch(options) && options.id == Some(db.submissions[i].id)
    requires session.None? || HasUser(db.users, session.value)
    ensures CreateSubmission(db, session, options).0.submissions
            == db.submissions[i := Overwrite(db.submissions[i], options, session)]
  {
    var subs := db.submissions;
    var j :| 0 <= j < |subs| && subs[j].id == subs[i].id
             && CreateSubmission(db, session, options).0.submissions
                == subs[j := Overwrite(subs[j], options, session)];
    assert j == i;
  }

  /** Outside the update branch, an `id` that no row holds makes no
      difference: the insert takes the sequence's value as if none had been
      sent. */
  lemma UnknownIdIsIgnored(db: Db, session: Option<int>, options: CreateSubmissionInput)
    requires !TakesUpdateBranch(options) && options.id.Some?
    requires forall j :: 0 <= j < |db.submissions| ==> db.submissions[j].id != options.id.value
    ensures CreateSubmission(db, session, options) == CreateSubmission(db, session, options.(id := None))
  {
    assert !LoadsRow(db.submissions, options);
    assert !LoadsRow(db.submissions, options.(id := None));
  }

  /** Called directly with `existing` and an explicit `null` as `updates`,
      `createSubmission` writes `null + 1`, which is 1, so a row at the cap
      is offered further updates again. */
  lemma DirectCallNullRestartsCount(db: Db, uid: int, question: string, fileKey: string, i: int)
    requires Valid(db) && AtMostOnePerPair(db.submissions)
    requires 0 <= i < |db.submissions| && Owned(db.submissions[i], Some(uid), question)
    requires db.submissions[i].updates >= MAX_UPDATES
    ensures ExistingSubmission(db, Some(uid), question) == AtCap
    ensures var options := CreateSubmissionInput(true, Some(db.submissions[i].id), Some(uid), question, fileKey, Null);
            var db' := CreateSubmission(db, Some(uid), options).0;
            && db'.submissions == db.submissions[i := db.submissions[i].(updates := 1, fileKey := fileKey)]
            && ExistingSubmission(db', Some(uid), question)
               == ExistingResponse(true, Some(db.submissions[i].id), Some(uid), Some(1), Some(fileKey), None)
  {
    var subs := db.submissions;
    ExistingSubmissionOfRow(db, uid, question, i);
    var options := CreateSubmissionInput(true, Some(subs[i].id), Some(uid), question, fileKey, Null);
    var db' := CreateSubmission(db, Some(uid), options).0;
    var expected := subs[i := subs[i].(updates := 1, fileKey := fileKey)];
    forall k | 0 <= k < |subs|
      ensures db'.submissions[k] == expected[k]
    {
      if k != i {
        assert subs[k].id != subs[i].id;
      }
    }
    assert db'.submissions == expected;
    SamePairsKeepLedger(subs, db'.submissions);
    ExistingSubmissionOfRow(db', uid, question, i);
  }

  /** Rows rewritten without touching creator or question keep one row per
      pair. */
  lemma SamePairsKeepLedger(subs: seq<Submission>, subs': seq<Submission>)
    requires AtMostOnePerPair(subs) && |subs'| == |subs|
    requires forall i :: 0 <= i < |subs| ==>
               subs'[i].creatorId == subs[i].creatorId && subs'[i].question == subs[i].question
    ensures AtMostOnePerPair(subs')
  {
  }

  /** The calling sequence the client is meant to follow: ask
      `existingSubmission`, and unless it reports the cap, pass what it
      returned back to `createSubmission` with the new file key. */
  function Submit(db: Db, uid: int, question: string, fileKey: string)
    : (out: (Db, ExistingResponse, Option<CreateResponse>))
    ensures out.1 == ExistingSubmission(db, Some(uid), question)
    ensures out.1.errors.Some? <==> out.2.None?
    ensures out.2.None? ==> out.0 == db
  {
    var r := ExistingSubmission(db, Some(uid), question);
    if r.errors.Some? then (db, r, None)
    else
      var options :=
        if r.existing
        then CreateSubmissionInput(true, r.id, r.creatorId, question, fileKey, Sent(r.updates))
        else CreateSubmissionInput(false, None, None, question, fileKey, Omitted);
      var (db', c) := CreateSubmission(db, Some(uid), options);
      (db', r, Some(c))
  }

  /** A client cycle leaves the database as it was exactly when it stops at
      the cap error: otherwise it bumps a row's count, or it inserts, and an
      insert advances the id sequence even when it fails. */
  lemma SubmitWritesUnlessCapped(db: Db, uid: int, question: string, fileKey: string)
    ensures var out := Submit(db, uid, question, fileKey);
            out.0 == db <==> out.1.errors.Some?
  {
    var subs := db.submissions;
    var r := ExistingSubmission(db, Some(uid), question);
    var out := Submit(db, uid, question, fileKey);
    if r.errors.None? && r.existing {
      var k :| 0 <= k < |subs| && Owned(subs[k], Some(uid), question) && subs[k].updates < MAX_UPDATES
               && r == ExistingResponse(true, Some(subs[k].id), Some(uid), Some(subs[k].updates),
                                        Some(subs[k].fileKey), None);
      var options := CreateSubmissionInput(true, Some(subs[k].id), Some(uid), question, fileKey, Count(subs[k].updates));
      assert out.0 == CreateSubmission(db, Some(uid), options).0;
      assert UpdateTarget(subs[k], options);
      assert out.0.submissions[k].updates != subs[k].updates;
    } else if r.errors.None? {
      assert out.0.nextSubmissionId == db.nextSubmissionId + 1;
    }
  }

  /** The update branch, aimed by id at one row below the cap with that
      row's own count, keeps the ledger's invariants. */
  lemma UpdateBranchKeepsLedger(db: Db, uid: int, options: CreateSubmissionInput, k: int)
    requires Valid(db) && WithinCap(db.submissions) && AtMostOnePerPair(db.submissions)
    requires 0 <= k < |db.submissions| && UpdateTarget(db.submissions[k], options)
    requires options.existing && options.id == Some(db.submissions[k].id)
    requires options.updates == Count(db.submissions[k].updates)
    requires db.submissions[k].updates < MAX_UPDATES
    ensures var db' := CreateSubmission(db, Some(uid), options).0;
            Valid(db') && WithinCap(db'.submissions) && AtMostOnePerPair(db'.submissions)
  {
    var subs := db.submissions;
    var db' := CreateSubmission(db, Some(uid), options).0;
    CreateSubmissionKeepsValid(db, Some(uid), options);
    forall i | 0 <= i < |subs|
      ensures db'.submissions[i].creatorId == subs[i].creatorId
      ensures db'.submissions[i].question == subs[i].question
      ensures 0 <= db'.submissions[i].updates <= MAX_UPDATES
    {
      if UpdateTarget(subs[i], options) {
        assert i == k;
      }
    }
  }

  /** The insert branch, with no id and for a user with no row for the
      question, keeps the ledger's invariants whether or not it lands. */
  lemma InsertBranchKeepsLedger(db: Db, uid: int, options: CreateSubmissionInput)
    requires Valid(db) && WithinCap(db.submissions) && AtMostOnePerPair(db.submissions)
    requires !options.existing && options.id.None?
    requires forall i :: 0 <= i < |db.submissions| ==> !Owned(db.submissions[i], Some(uid), options.question)
    ensures var db' := CreateSubmission(db, Some(uid), options).0;
            Valid(db') && WithinCap(db'.submissions) && AtMostOnePerPair(db'.submissions)
  {
    var subs := db.submissions;
    var db' := CreateSubmission(db, Some(uid), options).0;
    CreateSubmissionKeepsValid(db, Some(uid), options);
    if |db'.submissions| != |subs| {
      var n := |subs|;
      forall i | 0 <= i < n
        ensures db'.submissions[i] == subs[i]
      {
      }
      assert db'.submissions[n].creatorId == uid && db'.submissions[n].question == options.question;
    }
  }

  /** Followed as intended, the sequence keeps every row within the cap and
      at most one row per user and question. */
  lemma SubmitKeepsLedgerInvariants(db: Db, uid: int, question: string, fileKey: string)
    requires Valid(db) && WithinCap(db.submissions) && AtMostOnePerPair(db.submissions)
    ensures var db' := Submit(db, uid, question, fileKey).0;
            Valid(db') && WithinCap(db'.submissions) && AtMostOnePerPair(db'.submissions)
  {
    var subs := db.submissions;
    var r := ExistingSubmission(db, Some(uid), question);
    if r.errors.None? && r.existing {
      var k :| 0 <= k < |subs| && Owned(subs[k], Some(uid), question) && subs[k].updates < MAX_UPDATES
               && r == ExistingResponse(true, Some(subs[k].id), Some(uid), Some(subs[k].updates),
                                        Some(subs[k].fileKey), None);
      var options := CreateSubmissionInput(true, Some(subs[k].id), Some(uid), question, fileKey, Count(subs[k].updates));
      assert Submit(db, uid, question, fileKey).0 == CreateSubmission(db, Some(uid), options).0;
      UpdateBranchKeepsLedger(db, uid, options, k);
    } else if r.errors.None? {
      var options := CreateSubmissionInput(false, None, None, question, fileKey, Omitted);
      assert Submit(db, uid, question, fileKey).0 == CreateSubmission(db, Some(uid), options).0;
      InsertBranchKeepsLedger(db, uid, options);
    }
  }

  /** Followed as intended, an attempt past the cap is refused and leaves the
      ledger as it was; one below it advances that row's count by exactly one
      and records the new file key. */
  lemma SubmitRespectsCap(db: Db, uid: int, question: string, fileKey: string, i: int)
    requires Valid(db) && AtMostOnePerPair(db.submissions)
    requires 0 <= i < |db.submissions| && Owned(db.submissions[i], Some(uid), question)
    ensures var out := Submit(db, uid, question, fileKey);
            if db.submissions[i].updates >= MAX_UPDATES
            then out.0 == db && out.1 == AtCap
            else out.0.submissions[i]
                 == db.submissions[i].(updates := db.submissions[i].updates + 1, fileKey := fileKey)
  {
    ExistingSubmissionOfRow(db, uid, question, i);
  }
}
