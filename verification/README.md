# PTC Coding Platform back end — a Dafny model

This project models the request-handling core of the PTC Coding Challenge
back end, a GraphQL server where students register, upload solution files
for questions and climb a points leaderboard. The model covers:

- the registration validator;
- the account resolvers `login`, `register`, `changePassword` and `forgotPassword`;
- the submission ledger `existingSubmission` and `createSubmission`, with its update cap of three;
- the storage key that `uploadFile` derives for an upload;
- the administrator's bulk `updatePoints`;
- the `topScores` leaderboard;
- the `isAuth` and `isAdmin` middlewares.

The two tables are modelled as immutable sequences of records (`Entities`):
`User` and `Submissions`. A resolver is a pure function from the request
state to a new state and its response. The state holds the tables, the
session's `userId` and the Redis reset-token keys.

| module | file | models |
|---|---|---|
| `Common` | common.dfy | `Option`, `Result` (a value or a thrown message), `MessageField` |
| `Text` | text.dfy | JavaScript string length in UTF-16 code units, substring search, `\s` removal |
| `Entities` | entities.dfy | the `user` and `submissions` rows, their defaults, lookups, schema guarantees |
| `ValidateRegister` | validate_register.dfy | `validateRegister` |
| `Middleware` | middleware.dfy | `isAuth`, `isAdmin` |
| `SubmissionLedger` | submission_ledger.dfy | `existingSubmission`, `createSubmission`, the intended calling sequence |
| `UploadKey` | upload_key.dfy | the key and response of `uploadFile` |
| `UpdatePoints` | update_points.dfy | `updatePoints` |
| `Leaderboard` | leaderboard.dfy | `topScores` and `RANK()` ranking |
| `UserResolver` | user_resolver.dfy | `login`, `register`, `changePassword`, `forgotPassword` |

Points to note about the model:

- **The outside world enters as parameters.**
  - Password hashing is an abstract `Hasher`: `hash(salt, password)` and `verify(stored, password)`. The round-trip lemmas assume only that a hash verifies against the password it was made from (`Sound`).
  - Fresh uuids, reset tokens and salts are passed in as arguments.
  - The storage service's URL signing enters as its outcome.
- **Lookups take one matching row.** An ORM `findOne` is `LIMIT 1` with no `ORDER BY`, so the database may return any row that matches. The model takes the first in table order; the contracts only say "some matching row" wherever more than one can match. With no user in the session, a `where` property that is `undefined` is dropped, so `existingSubmission` then compares only the question. An `update`, by contrast, binds every property of its criteria: an `undefined` one compares as `= NULL`, so `createSubmission`'s update matches no row when `id` or `creatorId` was not sent.
- **`save()` loads by primary key.** When `createSubmission` saves an entity whose spread options carry the `id` of an existing row, it overwrites that row and resets its `updates` to 0. Any other entity is inserted, and on PostgreSQL the ORM leaves the generated `id` out of the INSERT, so the row takes the sequence's next value whatever `id` the client sent.
- **Inserts fail like the database does.** A submission insert with no signed-in, existing creator fails on the foreign key or the not-null `creatorId`. A user insert that clashes with a unique column is refused. Neither adds a row, but an insert that draws its id from a sequence has used up that value: PostgreSQL does not roll a sequence back.
- **Emails can throw.** The account resolvers greet the user in an email whose first letter of `firstName` is capitalised. For an empty first name this throws after the resolver has made its changes, and the model reproduces that.

## Model

| member | source | states |
|---|---|---|
| Text.Utf16Length | src/utils/validateRegister.ts:12 | a string's `.length` lies between its character count and twice it |
| Text.StripWhitespace | src/resolvers/submission.ts:90 | the cleaned name holds no whitespace character and is no longer than the name |
| Text.StripWhitespaceAppend | src/resolvers/submission.ts:90 | cleaning a concatenation cleans each part separately |
| Text.StripWhitespaceKeeps | src/resolvers/submission.ts:90 | a name with no whitespace comes through unchanged |
| Text.StripWhitespaceSeparator | src/resolvers/submission.ts:90 | a whitespace character between two clean pieces disappears and the pieces join |
| Text.StripWhitespaceIdempotent | src/resolvers/submission.ts:90 | cleaning an already cleaned name changes nothing |
| Text.ContainsIffOccurs | src/resolvers/submission.ts:311 | `'%' || f || '%'` containment holds exactly when `f` occurs at some position of the key |
| Entities.FindUser | src/resolvers/user.ts:139-143 | the lookup returns a row matching the key, and returns none exactly when no row matches |
| Entities.FindUserUnique | src/entities/Users.ts:28-42 | with unique ids, usernames and emails, a lookup by any of them finds the one row holding the value |
| Entities.NewUser | src/entities/Users.ts:47-60 | a new user row keeps the given columns and takes the defaults: 0 points and no admin rights |
| Entities.NewSubmission | src/entities/Submissions.ts:29-50 | a new submission row keeps the given id, question, key and creator, has no rank, and takes the defaults: 0 points and 0 updates |
| Entities.Valid | src/entities/Submissions.ts:17-58 | the schema's guarantees: primary keys, the unique `username` and `email` of Users.ts:28-42, serial ids below the sequences' next values, a `creatorId` naming an existing user; so the next value of either sequence is held by no row |
| ValidateRegister.Validate | src/utils/validateRegister.ts:3-40 | null exactly when all four checks pass; otherwise exactly one error, the first failing check's, in the order email, username length, `@` in username, password length |
| ValidateRegister.ValidateReportsFirstFailure | src/utils/validateRegister.ts:3-40 | the error returned is the head of the independently defined list of every failing check |
| ValidateRegister.UsernameLengthCountsCodeUnits | src/utils/validateRegister.ts:12 | a username of one character outside the Basic Multilingual Plane and one other character passes the length check, because `.length` counts its two characters as three UTF-16 code units |
| Middleware.IsAuth | src/middleware/useIsAuth.ts:5-12 | throws the login message exactly when the session's `userId` is falsy (absent or 0), and otherwise returns what `next` returns |
| Middleware.IsAdmin | src/middleware/useIsAdmin.ts:6-22 | the login message when not signed in; the not-authorized message when no user has the session id; otherwise `next`'s result when admitted |
| Middleware.IsAdminAdmitsExactlyAdmins | src/middleware/useIsAdmin.ts:9-21 | `next` runs exactly when the session is signed in as an existing user whose `isAdmin` flag is set |
| Middleware.IsAdminRefusesNonAdmin | src/middleware/useIsAdmin.ts:15-20 | a signed-in user without the flag gets the not-authorized message |
| Middleware.IsAdminImpliesIsAuth | src/middleware/useIsAdmin.ts:9-13 | whatever `isAdmin` admits, `isAuth` admits with the same result |
| Middleware.RefusalsAreDistinct | src/middleware/useIsAdmin.ts:10-19 | the two refusal messages differ |
| SubmissionLedger.FindSubmission | src/resolvers/submission.ts:142-145 | returns a row owned by the session user for the question, and none exactly when there is no such row |
| SubmissionLedger.FindSubmissionUnique | src/resolvers/submission.ts:142-145 | with at most one row per user and question, the lookup finds that row |
| SubmissionLedger.ExistingSubmission | src/resolvers/submission.ts:140-172 | no matching row gives `existing: false` and nothing else; a row below 3 updates gives its id, updates and file key with the session id; a row at 3 or more gives only the "Max Submissions" error with `existing: true` |
| SubmissionLedger.ExistingSubmissionOfRow | src/resolvers/submission.ts:147-167 | for a user's one submission, the answer depends only on its update count |
| SubmissionLedger.CreateSubmission | src/resolvers/submission.ts:182-212 | with `existing` and an `updates` that is not `undefined`, the update branch writes `updates + 1` (1 for an explicit `null`) and the new key on exactly the rows matching `id`, `creatorId` and `question`, keeps all others, and reports success even with no match; otherwise `save()`: an `id` of an existing row overwrites that row's question, key and creator and resets `updates` to 0, failing unchanged only when the session's user does not exist; any other entity advances the sequence and is inserted under its value for the session user, or fails with only the sequence moved on |
| SubmissionLedger.CreateSubmissionKeepsValid | src/resolvers/submission.ts:182-212 | every path keeps submission ids unique and below the sequence, and every creator an existing user |
| SubmissionLedger.DirectCallExceedsCap | src/resolvers/submission.ts:184-194 | called directly with `updates` = 3, the update branch leaves the row at 4, over the cap |
| SubmissionLedger.UnsentCriterionMatchesNothing | src/resolvers/submission.ts:184-194 | an update whose criteria leave out `id` or `creatorId` changes no row and still reports success |
| SubmissionLedger.Overwrite | src/resolvers/submission.ts:206-211 | a loaded row is saved with the new question and key and `updates` 0, keeps its id, points and rank, and takes the session's user as creator, or keeps its own when the session has none |
| SubmissionLedger.DirectCallDuplicatesPair | src/resolvers/submission.ts:206-212 | called directly without `existing` and with an id no row holds (or none), the insert gives a user a second row for the same question |
| SubmissionLedger.UnknownIdIsIgnored | src/resolvers/submission.ts:206-211 | outside the update branch, a client `id` that no row holds gives exactly the outcome of sending no `id` |
| SubmissionLedger.DirectCallNullRestartsCount | src/resolvers/submission.ts:182-194 | called directly with `existing` and `updates: null`, the capped row gets `null + 1` = 1 updates and `existingSubmission` offers updates again |
| SubmissionLedger.DirectCallResetsCount | src/resolvers/submission.ts:206-212 | called directly without `existing` but with the id of the user's row at the cap, the save overwrites that row with 0 updates, and `existingSubmission` offers updates again |
| SubmissionLedger.Submit | src/resolvers/submission.ts:140-212 | the intended sequence reports what `existingSubmission` says, and calls `createSubmission` exactly when that is not the cap error; with the cap error it writes nothing |
| SubmissionLedger.SubmitWritesUnlessCapped | src/resolvers/submission.ts:140-212 | the intended sequence leaves the database unchanged exactly when it stops at the cap error, for any user, since a failed insert still advances the sequence |
| SubmissionLedger.UpdateBranchKeepsLedger | src/resolvers/submission.ts:184-194 | an update aimed at one row below the cap, carrying that row's own count, keeps the schema guarantees, the cap and one row per user and question |
| SubmissionLedger.InsertBranchKeepsLedger | src/resolvers/submission.ts:206-212 | an insert without an id, for a user with no row for the question, landed or not, keeps the schema guarantees, the cap and one row per user and question |
| SubmissionLedger.SubmitKeepsLedgerInvariants | src/resolvers/submission.ts:140-212 | followed as intended, every row stays within 0..3 updates and at most one row per user and question |
| SubmissionLedger.SubmitRespectsCap | src/resolvers/submission.ts:147-194 | at the cap the ledger is unchanged and the cap error returned; below it the row's count rises by exactly one and takes the new key |
| UploadKey.FileKey | src/resolvers/submission.ts:100-102 | the key starts with `misc/` for the root path and `path/` otherwise, ends with the uuid, a dash and the cleaned name, and is exactly as long as those parts, so nothing lies between them |
| UploadKey.FileKeyIgnoresWhitespace | src/resolvers/submission.ts:90 | a name and its cleaned form give the same key |
| UploadKey.FileKeyAtRoot | src/resolvers/submission.ts:101 | a name of two clean pieces around a space, uploaded to `/`, gets the key `misc/<uuid>-` and the pieces joined (`my file.png` gives `misc/<uuid>-myfile.png`) |
| UploadKey.FileKeyInFolder | src/resolvers/submission.ts:102 | a clean name uploaded to any path but `/` gets the key `path/<uuid>-name` (`a.png` in `docs` gives `docs/<uuid>-a.png`) |
| UploadKey.RootAndMiscShareFolder | src/resolvers/submission.ts:100-102 | the root path and the path `misc` give the same key |
| UploadKey.UploadFile | src/resolvers/submission.ts:81-132 | throws exactly when not signed in; otherwise the signed URL with the derived key, or the `" signedUrl"` error carrying the signing error |
| UpdatePoints.MatchedPoints | src/resolvers/submission.ts:305-311 | a submission joins some pair exactly when its key contains that pair's fragment, and gets that pair's points |
| UpdatePoints.ApplyPoints | src/resolvers/submission.ts:305-316 | the statement's effect on the table: a submission whose key contains some pair's fragment takes the points of such a pair and keeps every other column; every other submission is unchanged |
| UpdatePoints.AffectedCount | src/resolvers/submission.ts:305-316 | the affected-row count counts each submission at most once, so never exceeds the table's size |
| UpdatePoints.AffectedCountPositive | src/resolvers/submission.ts:315-322 | the affected-row count is non-zero exactly when some submission matches some fragment |
| UpdatePoints.UpdatePoints | src/resolvers/submission.ts:296-328 | an empty list fails; each matching submission gets the points of a pair it matches, the rest are unchanged; success exactly when some row matched; a failure changes nothing |
| UpdatePoints.UpdatePointsAsAdmin | src/resolvers/submission.ts:288-293 | runs `updatePoints` exactly when the session is signed in as an existing user with the admin flag, and refuses without a session |
| UpdatePoints.UnambiguousMatchSetsPoints | src/resolvers/submission.ts:306-311 | when every pair a submission matches carries the same points, the submission gets them |
| UpdatePoints.UploadIdScoresItsSubmission | src/resolvers/submission.ts:305-316 | scoring by an upload's uuid reaches the submission stored under that upload's key and succeeds |
| UpdatePoints.EmptyFragmentMatchesAll | src/resolvers/submission.ts:311 | the empty fragment matches every key |
| Leaderboard.InsertDesc | src/resolvers/submission.ts:277 | inserting into a descending list keeps it descending and is a permutation of the list plus the user |
| Leaderboard.SortDesc | src/resolvers/submission.ts:277 | the ordered table is descending by points and a permutation of the table |
| Leaderboard.CountAboveSort | src/resolvers/submission.ts:277 | ordering the table does not change how many users beat a score |
| Leaderboard.SortDescKeepsSorted | src/resolvers/submission.ts:277 | an already descending table keeps its order |
| Leaderboard.RankAt | src/resolvers/submission.ts:277 | the `RANK()` of the row at position `i` of the ordered rows lies between 1 and `i + 1` |
| Leaderboard.RankAtBlockStart | src/resolvers/submission.ts:277 | a row's window rank is the position where its block of tied scores starts |
| Leaderboard.CountAboveOfSorted | src/resolvers/submission.ts:277 | in a descending table, the length of the prefix that beats a score is the number of users that beat it |
| Leaderboard.RankIsCompetition | src/resolvers/submission.ts:277 | the window rank is one more than the number of users with strictly more points |
| Leaderboard.RanksAgainstTable | src/resolvers/submission.ts:277 | each row's rank counts the users of the whole table that beat it, and no more of them than precede it |
| Leaderboard.TopScores | src/resolvers/submission.ts:272-287 | null exactly when the query fails; otherwise the first min(10, users) rows of some descending permutation of the table, names and points, each ranked one more than the users beating it |
| Leaderboard.TopScoresRowsAreUsers | src/resolvers/submission.ts:276-281 | every returned row is the name and points of a user in the table |
| Leaderboard.TiesShareRank | src/resolvers/submission.ts:277 | scores 90, 80, 80, 70 rank 1, 2, 2, 4 |
| UserResolver.Login | src/resolvers/user.ts:139-166 | looks up by email when the input has `@` and by username otherwise; an unknown user gives the `usernameOrEmail` error, a failed verify the `password` error, neither changing anything; a verified password signs the session in and returns the user |
| UserResolver.Register | src/resolvers/user.ts:59-128 | validator errors first and nothing changes; a taken username or email gives its own error, adds no row and signs no one in, but advances the id sequence; otherwise the hashed user is inserted with no points and no admin rights and the session signed in |
| UserResolver.RegisterAsWritten | src/resolvers/user.ts:86-109 | same state as `Register`; the same response except that an email clash whose address contains `username` is reported as the username error |
| UserResolver.DetailMentionsColumn | src/resolvers/user.ts:86-96 | the violation detail always contains the clashing column's name |
| UserResolver.EmailDetailMentionsUsername | src/resolvers/user.ts:86 | the email clash's detail contains `username` exactly when the clashing address does |
| UserResolver.AsWrittenMisreportsEmailClash | src/resolvers/user.ts:86-106 | a free username with a taken email containing `username` is answered with the username error, where the email error is due |
| UserResolver.AsWrittenMisreportExample | src/resolvers/user.ts:86-95 | `bob` registering with `alice`'s `username@example.com` is told the username is taken |
| UserResolver.RegisterKeepsValid | src/resolvers/user.ts:68-81 | a registration keeps ids, usernames and emails unique and every submission's creator existing |
| UserResolver.RegisterThenLogin | src/resolvers/user.ts:139-166 | a new user can log in by username and by email with the password registered |
| UserResolver.ChangePassword | src/resolvers/user.ts:191-256 | short password first, then expired token, then vanished user, each changing nothing; otherwise the hash is replaced for that user only, the session signed in and the token key deleted |
| UserResolver.SetPassword | src/resolvers/user.ts:228-231 | `User.update({ id }, { password })` replaces the hash on exactly the rows with the id and leaves every other row and column as it was |
| UserResolver.TokenIsSingleUse | src/resolvers/user.ts:236-237 | after an accepted change the same token is expired |
| UserResolver.ForgotPassword | src/resolvers/user.ts:264-282 | an unknown email is refused with nothing stored; a known one stores the prefixed token for the user's id and reports the email sent |
| UserResolver.ResetPasswordFlow | src/resolvers/user.ts:201-237 | forgot, then change: the user is signed in, logs in with the new password, and cannot reuse the token |
| UserResolver.RefusalsLeaveSessionAlone | src/resolvers/user.ts:59-282 | every error response of the account resolvers leaves the session as it was; `login`, `changePassword` and `forgotPassword` leave the whole state, and a refused `register` the tables and Redis, with only the user id sequence possibly advanced |

## Findings

| source | as written | input that shows it | evidently intended | confidence | as-written member | corrected member |
|---|---|---|---|---|---|---|
| src/resolvers/user.ts:86-106 | a duplicate is classified by searching the whole violation detail for `username`, and the detail also contains the clashing value | an account exists with email `username@example.com`; `bob` registers with that email | the email clash is reported as "An account with this email already exists" | medium; not executed | UserResolver.RegisterAsWritten | UserResolver.Register |

`Register`, which classifies a duplicate by the column that clashed, is what
the rest of the model uses. `AsWrittenMisreportExample` names the input.

## Left out

- Text.Utf16Length: a Dafny string is a sequence of Unicode scalar values and cannot hold a lone UTF-16 surrogate, which a JavaScript string from the GraphQL input can; for such a string `.length` counts the surrogate as one unit, and the model does not represent that input.
- UpdatePoints.UpdatePoints: when a submission matches several pairs, the contract says only that it gets the points of one of them. The database's choice among the joined pairs is unspecified, and the model takes the first.
- UpdatePoints.UpdatePoints: fragments are matched as plain substrings. The `%` and `_` wildcards of `LIKE`, its default escape character `\` (a fragment `a\b` matches keys containing `ab`), and quotes that break or inject into the interpolated statement, are not modelled.
- Leaderboard.TopScores: among users tied on points, the order is a model choice (table order). The ten-row cut may keep any of the tied users.
- Leaderboard.TopScores: the query has no outer `ORDER BY`. The contract's descending order assumes that PostgreSQL emits the rows in the window's order, as its executor does for a single window, but SQL does not promise it.
- Lookups through `findOne` take the first matching row in table order. PostgreSQL may return any matching row; this matters only for submissions, where nothing keeps a user's rows for a question unique.
- SubmissionLedger.CreateSubmission: an explicit `null` for `id` or `creatorId` is not modelled; only absent and numeric values are. `CreateSubmissionInput` is not part of this model, so which of its fields are nullable is not known.
- SubmissionLedger.CreateSubmission: the overwrite returns the stored row. The source returns the saved entity, which lacks `points` and `rank`; how GraphQL serialises the missing fields is not modelled.
- UserResolver.Register: the model takes the five-field `UsernamePasswordInput` of src/resolvers/ResolverTypes.ts:78-90 (username, first and last name, email, password). `register`'s argument type is the three-field class of src/resolvers/UsernamePasswordInput.ts:5-13 imported at user.ts:11, which has no names. Read strictly, the not-null `firstName` insert then fails with code 23502. That code matches neither test at user.ts:86 and 96, so the greeting at user.ts:108 throws on the undefined `user` after a sequence value is burned, and no registration could succeed. Both classes declare the GraphQL input name `UsernamePasswordInput`, and what the built schema accepts is settled by schema construction outside these files. The model follows the declaration that `validateRegister` uses and that the resolver body reads.
- UserResolver.RegisterAsWritten: takes the same five-field input as `Register`, for the same reason.
- UserResolver.Register: an id clash with the user sequence is not modelled. The schema guarantees keep user ids below the sequence, so it cannot happen from a valid database.
- The leaderboard's query returns a `totalPoints` column while the `TopQuery` type declares a `points` field. The GraphQL layer that would report the missing field is not modelled.
- Email sending is not modelled: the welcome, reset and confirmation messages are assumed sent. Only the greeting's throw on an empty first name is kept.
- Password hashing is an abstract hash and verify pair, and salts are parameters.
- Reset tokens, upload uuids and the signed URL are parameters.
- The storage client, `mime` lookup and upload metadata are not modelled, because they do not affect the key.
- Redis expiry is not modelled, because time is not modelled. The expiry is given in seconds, about eight years rather than three days.
- Ids come back from Redis as text and are parsed. The model stores ids as integers, so the parse is the identity.
- The password update in `changePassword` is not awaited. The model treats it as complete before the response.
- `register` reports the username clash when both the username and the email are taken. Which unique index the database checks first is not visible in the source.
- Database errors other than unique violations, foreign-key and not-null failures are not modelled.
- Concurrency is not modelled: all calls are sequential. The race between `existingSubmission` and `createSubmission` is out of scope.
- `me`, `listUsers`, `userPoints`, `logout`, `deleteFile` and `viewFile` are not part of this model. They are single lookups, or calls to the storage service and session store.
- Created and updated timestamps are not modelled.
