/** The account resolvers: `login`, `register`, `changePassword` and
    `forgotPassword`, each a transition of the request state (tables,
    session, Redis keys) paired with the response it returns. Password
    hashing is an abstract `hash`/`verify` pair; the welcome and reset emails
    are not part of this model. */
module UserResolver {
  import opened Common
  import opened Text
  import opened Entities
  import opened ValidateRegister

  const FORGOT_PASSWORD_PREFIX := "forgot-password:"

  /** The password hasher: `hash(salt, password)` with a fresh random salt per
      call, and `verify(stored, password)`. */
  datatype Hasher = Hasher(hash: (string, string) -> string, verify: (string, string) -> bool)

  /** A hash verifies against the password it was made from. */
  ghost predicate Sound(h: Hasher) {
    forall salt: string, p: string :: h.verify(h.hash(salt, p), p)
  }

  /** `UserResponse`: errors, success notes, or the user; or the message of
      an exception the resolver lets escape. */
  datatype UserResponse =
    | UserErrors(errors: seq<MessageField>)
    | UserSuccess(success: seq<MessageField>)
    | UserPayload(user: User)
    | UserThrown(message: string)

  const NoSuchUser := MessageField("usernameOrEmail", "Username doesn't exist")
  const WrongPassword := MessageField("password", "Incorrect username or password")
  const UsernameTaken := MessageField("username", "Username already taken")
  const EmailTaken := MessageField("email", "An account with this email already exists")
  const NewPasswordTooShort := MessageField("newPassword", "Password length must be greater than 3")
  const TokenExpired := MessageField("token", "Token expired")
  const UserGone := MessageField("token", "User no longer exists")
  const UnknownEmail := MessageField("token", "Invalid email please try again")
  const EmailSent := MessageField("idk", "Email sent! Please check your inbox")
  /** What reading `user.firstName` throws when `user` was never assigned. */
  const UndefinedUser := "Cannot read properties of undefined (reading 'firstName')"
  /** What capitalising the first letter of an empty first name throws. */
  const EmptyFirstName := "Cannot read properties of undefined (reading 'toUpperCase')"

  /** The greeting of the emails capitalises `firstName[0]`, which throws,
      after the resolver has made its changes, unless the name has a first
      character. */
  predicate Greetable(u: User) {
    |u.firstName| > 0
  }

  /** What a resolver that has made its changes answers: the user, or the
      greeting's exception. */
  function Greeted(u: User, r: UserResponse): UserResponse {
    if Greetable(u) then r else UserThrown(EmptyFirstName)
  }

  // ---------------------------------------------------------------- login

  /** Input with an `@` is looked up as an email, anything else as a username. */
  function LoginKey(usernameOrEmail: string): UserKey {
    if '@' in usernameOrEmail then ByEmail(usernameOrEmail) else ByUsername(usernameOrEmail)
  }

  /** `login(usernameOrEmail, password)`: an unknown name or email gives the
      single `usernameOrEmail` error; a password that does not verify gives
      the `password` error; either way the state is unchanged. A verified
      password signs the session in as that user and returns the user. */
  function Login(st: State, h: Hasher, usernameOrEmail: string, password: string)
    : (out: (State, UserResponse))
    ensures FindUser(st.db.users, LoginKey(usernameOrEmail)).None?
            ==> out == (st, UserErrors([NoSuchUser]))
    ensures out.1.UserPayload? <==>
              && FindUser(st.db.users, LoginKey(usernameOrEmail)).Some?
              && h.verify(FindUser(st.db.users, LoginKey(usernameOrEmail)).value.password, password)
    ensures out.1.UserPayload? ==>
              && out.1.user in st.db.users
              && KeyMatches(out.1.user, LoginKey(usernameOrEmail))
              && out.0 == st.(session := Some(out.1.user.id))
    ensures FindUser(st.db.users, LoginKey(usernameOrEmail)).Some? && !out.1.UserPayload?
            ==> out == (st, UserErrors([WrongPassword]))
  {
    match FindUser(st.db.users, LoginKey(usernameOrEmail))
    case None => (st, UserErrors([NoSuchUser]))
    case Some(user) =>
      if !h.verify(user.password, password) then (st, UserErrors([WrongPassword]))
      else (st.(session := Some(user.id)), UserPayload(user))
  }

  // ------------------------------------------------------------- register

  predicate UsernameInUse(users: seq<User>, username: string) {
    exists i :: 0 <= i < |users| && users[i].username == username
  }

  predicate EmailInUse(users: seq<User>, email: string) {
    exists i :: 0 <= i < |users| && users[i].email == email
  }

  /** The unique constraint an insert of `input` violates, as the column and
      the clashing value; the username's is reported when both clash. */
  function InsertConflict(users: seq<User>, input: RegisterInput): Option<(string, string)> {
    if UsernameInUse(users, input.username) then Some(("username", input.username))
    else if EmailInUse(users, input.email) then Some(("email", input.email))
    else None
  }

  /** The `detail` of a PostgreSQL unique violation (code 23505). */
  function DuplicateDetail(column: string, value: string): string {
    "Key (" + column + ")=(" + value + ") already exists."
  }

  /** The row `register` inserts: the hashed password, and the column
      defaults for points and the admin flag. */
  function Registered(db: Db, h: Hasher, salt: string, input: RegisterInput): User {
    NewUser(db.nextUserId, input.username, input.firstName, input.lastName, input.email,
            h.hash(salt, input.password))
  }

  /** The database after the insert of `u`: the row added, the sequence
      advanced. */
  function Inserted(db: Db, u: User): Db {
    db.(users := db.users + [u], nextUserId := db.nextUserId + 1)
  }

  /** The database after an insert the unique constraints refused: the
      sequence has handed out its value all the same, and PostgreSQL does
      not take it back. */
  function Burned(db: Db): Db {
    db.(nextUserId := db.nextUserId + 1)
  }

  /** `register(options)`, reporting a duplicate by the column that clashed.
      Validator errors come back first and change nothing. A taken username
      gives the `username` error, otherwise a taken email gives the `email`
      error; neither adds a row or signs in, but the refused insert has used
      up a value of the id sequence. Otherwise the user is
      inserted with a hashed password, no points and no admin rights; then,
      unless the welcome greeting throws on an empty first name, the session
      is signed in as that user and the user returned. */
  function Register(st: State, h: Hasher, salt: string, input: RegisterInput)
    : (out: (State, UserResponse))
    ensures Validate(input).Some? ==> out == (st, UserErrors(Validate(input).value))
    ensures Validate(input).None? && UsernameInUse(st.db.users, input.username)
            ==> out == (st.(db := Burned(st.db)), UserErrors([UsernameTaken]))
    ensures (Validate(input).None? && !UsernameInUse(st.db.users, input.username)
             && EmailInUse(st.db.users, input.email))
            ==> out == (st.(db := Burned(st.db)), UserErrors([EmailTaken]))
    ensures (Validate(input).None? && !UsernameInUse(st.db.users, input.username)
             && !EmailInUse(st.db.users, input.email))
            ==> var u := Registered(st.db, h, salt, input);
                && out.0.db == Inserted(st.db, u)
                && u.totalPoints == 0 && !u.isAdmin && u.id == st.db.nextUserId
                && (Greetable(u) ==> out == (st.(db := Inserted(st.db, u), session := Some(u.id)), UserPayload(u)))
                && (!Greetable(u) ==> out == (st.(db := Inserted(st.db, u)), UserThrown(EmptyFirstName)))
    ensures out.1.UserPayload? <==>
              Acceptable(input) && InsertConflict(st.db.users, input).None? && |input.firstName| > 0
  {
    var v := Validate(input);
    if v.Some? then (st, UserErrors(v.value))
    else
      var conflict := InsertConflict(st.db.users, input);
      if conflict.Some? then
        (st.(db := Burned(st.db)),
         UserErrors([if conflict.value.0 == "username" then UsernameTaken else EmailTaken]))
      else
        var u := Registered(st.db, h, salt, input);
        (st.(db := Inserted(st.db, u), session := if Greetable(u) then Some(u.id) else st.session),
         Greeted(u, UserPayload(u)))
  }

  /** How `register` as written reads the violation: the `username` error if
      the detail text mentions `username` anywhere, else the `email` error if
      it mentions `email`, else nothing, and the resolver runs on with no
      user. */
  function ClassifyAsWritten(detail: string): Option<MessageField> {
    if Contains(detail, "username") then Some(UsernameTaken)
    else if Contains(detail, "email") then Some(EmailTaken)
    else None
  }

  /** `register(options)` exactly as written: like `Register`, except that
      the clashing column is read off the violation's detail text by
      substring search. The state is always the same as `Register`'s; the
      response differs exactly when an email clash involves an address that
      itself contains `username`. */
  function RegisterAsWritten(st: State, h: Hasher, salt: string, input: RegisterInput)
    : (out: (State, UserResponse))
    ensures out.0 == Register(st, h, salt, input).0
    ensures (Validate(input).None? && InsertConflict(st.db.users, input) == Some(("email", input.email))
             && Contains(input.email, "username"))
            ==> out.1 == UserErrors([UsernameTaken])
    ensures !(Validate(input).None? && InsertConflict(st.db.users, input) == Some(("email", input.email))
              && Contains(input.email, "username"))
            ==> out.1 == Register(st, h, salt, input).1
  {
    var v := Validate(input);
    if v.Some? then (st, UserErrors(v.value))
    else
      var conflict := InsertConflict(st.db.users, input);
      if conflict.Some? then
        var (column, value) := conflict.value;
        DetailMentionsColumn(column, value);
        assert column == "email" ==>
                 (Contains(DuplicateDetail(column, value), "username") <==> Contains(value, "username")) by {
          if column == "email" {
            EmailDetailMentionsUsername(value);
          }
        }
        var classified := ClassifyAsWritten(DuplicateDetail(column, value));
        if classified.Some? then (st.(db := Burned(st.db)), UserErrors([classified.value]))
        else (st.(db := Burned(st.db)), UserThrown(UndefinedUser))
      else
        var u := Registered(st.db, h, salt, input);
        (st.(db := Inserted(st.db, u), session := if Greetable(u) then Some(u.id) else st.session),
         Greeted(u, UserPayload(u)))
  }

  /** The detail always names its column. */
  lemma DetailMentionsColumn(column: string, value: string)
    ensures Contains(DuplicateDetail(column, value), column)
  {
    ContainsPart("Key (", column, ")=(" + value + ") already exists.");
    assert DuplicateDetail(column, value) == "Key (" + column + (")=(" + value + ") already exists.");
  }

  /** Each character of a window is the text's character at that offset. */
  lemma WindowChar(t: string, f: string, i: int, k: int)
    requires 0 <= i && i + |f| <= |t| && t[i..i + |f|] == f
    requires 0 <= k < |f|
    ensures f[k] == t[i + k]
  {
  }

  /** A window of `p + v + s` that holds `f` lies inside `v` when `f` cannot
      start inside `p` or `s` and cannot span the last character of `p` or
      the first of `s`. */
  lemma ContainsInMiddle(p: string, v: string, s: string, f: string)
    requires |f| > 0 && |p| > 0 && |s| > 0
    requires f[0] !in p && f[0] !in s
    requires p[|p| - 1] !in f && s[0] !in f
    requires Contains(p + v + s, f)
    ensures Contains(v, f)
  {
    var t := p + v + s;
    var i := ContainsHasPosition(t, f);
    assert t[i..i + |f|] == f;
    if i < |p| {
      assert false;
    } else if i >= |p| + |v| {
      assert false;
    } else if i + |f| > |p| + |v| {
      WindowChar(t, f, i, |p| + |v| - i);
      assert false;
    } else {
      assert v[i - |p|..i - |p| + |f|] == t[i..i + |f|];
      ContainsAt(v, f, i - |p|);
    }
  }

  /** The email column's detail mentions `username` exactly when the
      clashing address does. */
  lemma EmailDetailMentionsUsername(value: string)
    ensures Contains(DuplicateDetail("email", value), "username") <==> Contains(value, "username")
  {
    var p, s, f := "Key (email)=(", ") already exists.", "username";
    EmailDetailShape(value);
    if Contains(value, f) {
      var i := ContainsHasPosition(value, f);
      assert (p + value + s)[|p| + i..|p| + i + |f|] == value[i..i + |f|];
      ContainsAt(p + value + s, f, |p| + i);
    }
    if Contains(p + value + s, f) {
      DetailFramesFragment(p, s, f);
      ContainsInMiddle(p, value, s, f);
    }
  }

  lemma EmailDetailShape(value: string)
    ensures DuplicateDetail("email", value) == "Key (email)=(" + value + ") already exists."
  {
  }

  /** The frame around an email value shares no character with `username`
      where it matters. */
  lemma DetailFramesFragment(p: string, s: string, f: string)
    requires p == "Key (email)=(" && s == ") already exists." && f == "username"
    ensures |f| > 0 && |p| > 0 && |s| > 0
    ensures f[0] !in p && f[0] !in s
    ensures p[|p| - 1] !in f && s[0] !in f
  {
  }

  /** Registering under a username that is free with an email that is taken
      but contains `username` is answered, as written, with the username
      error, though the username is free and the email is what clashed. */
  lemma AsWrittenMisreportsEmailClash(st: State, h: Hasher, salt: string, input: RegisterInput)
    requires Acceptable(input)
    requires !UsernameInUse(st.db.users, input.username)
    requires EmailInUse(st.db.users, input.email)
    requires Contains(input.email, "username")
    ensures RegisterAsWritten(st, h, salt, input).1 == UserErrors([UsernameTaken])
    ensures Register(st, h, salt, input).1 == UserErrors([EmailTaken])
  {
  }

  /** A concrete case of the misreport: `alice` holds the address
      `username@example.com`, and `bob` tries to register with it. */
  lemma AsWrittenMisreportExample(st: State, h: Hasher, salt: string, input: RegisterInput)
    requires |st.db.users| == 1
    requires st.db.users[0].username == "alice" && st.db.users[0].email == "username@example.com"
    requires input.username == "bob" && input.email == "username@example.com"
    requires input.password == "secret"
    ensures RegisterAsWritten(st, h, salt, input).1 == UserErrors([UsernameTaken])
    ensures Register(st, h, salt, input).1 == UserErrors([EmailTaken])
  {
    Utf16LengthOfBmp(input.username);
    Utf16LengthOfBmp(input.password);
    assert input.email[8] == '@';
    assert Acceptable(input);
    assert !UsernameInUse(st.db.users, input.username) by {
      assert st.db.users[0].username != input.username;
    }
    assert EmailInUse(st.db.users, input.email) by {
      assert st.db.users[0].email == input.email;
    }
    assert input.email[0..8] == "username";
    ContainsAt(input.email, "username", 0);
    AsWrittenMisreportsEmailClash(st, h, salt, input);
  }

  /** A successful registration keeps every schema guarantee. */
  lemma RegisterKeepsValid(st: State, h: Hasher, salt: string, input: RegisterInput)
    requires Valid(st.db)
    ensures Valid(Register(st, h, salt, input).0.db)
  {
    var out := Register(st, h, salt, input);
    if out.0.db.users != st.db.users {
      var db, db' := st.db, out.0.db;
      var u := Registered(db, h, salt, input);
      assert db'.users == db.users + [u];
      forall i, j | 0 <= i < j < |db'.users|
        ensures db'.users[i].id != db'.users[j].id
        ensures db'.users[i].username != db'.users[j].username
        ensures db'.users[i].email != db'.users[j].email
      {
        if j == |db.users| {
          assert db'.users[i] == db.users[i];
        }
      }
      forall i | 0 <= i < |db'.submissions|
        ensures HasUser(db'.users, db'.submissions[i].creatorId)
      {
        var k :| 0 <= k < |db.users| && db.users[k].id == db.submissions[i].creatorId;
        assert db'.users[k] == db.users[k];
      }
    }
  }

  /** Whoever registers can then log in, by username or by email, with the
      password they registered with, given a hash that verifies. */
  lemma RegisterThenLogin(st: State, h: Hasher, salt: string, input: RegisterInput)
    requires Valid(st.db) && Sound(h)
    requires Register(st, h, salt, input).1.UserPayload?
    ensures var (st', r) := Register(st, h, salt, input);
            && Login(st', h, input.username, input.password) == (st', r)
            && Login(st', h, input.email, input.password) == (st', r)
  {
    var (st', r) := Register(st, h, salt, input);
    var u := r.user;
    RegisterKeepsValid(st, h, salt, input);
    var n := |st.db.users|;
    assert st'.db.users[n] == u;
    FindUserUnique(st'.db.users, ByUsername(input.username), n);
    FindUserUnique(st'.db.users, ByEmail(input.email), n);
    assert h.verify(h.hash(salt, input.password), input.password);
  }

  // ------------------------------------------------------- changePassword

  /** `User.update({ id }, { password })`: the hash replaced on every row with
      the id, all else kept. */
  function SetPassword(users: seq<User>, id: int, hash: string): (r: seq<User>)
    ensures |r| == |users|
    ensures forall i :: 0 <= i < |users| ==>
              r[i] == if users[i].id == id then users[i].(password := hash) else users[i]
  {
    seq(|users|, i requires 0 <= i < |users| =>
      if users[i].id == id then users[i].(password := hash) else users[i])
  }

  /** The checks `changePassword` makes before it changes anything: a new
      password longer than three code units, a live token, and a user still
      behind it. */
  predicate ResetAccepted(st: State, newPassword: string, token: string) {
    && Utf16Length(newPassword) > 3
    && FORGOT_PASSWORD_PREFIX + token in st.redis
    && FindUser(st.db.users, ById(st.redis[FORGOT_PASSWORD_PREFIX + token])).Some?
  }

  /** `changePassword(newPassword, token)`: a new password too short is
      refused before the token is looked at; then a token with no Redis key
      is expired; then a key whose user is gone is refused; every refusal
      changes nothing. Otherwise the user's password hash is replaced, the
      session is signed in as the user and the key is deleted so the token
      cannot be used again; the user as read before the change is returned
      unless the confirmation greeting throws on an empty first name. */
  function ChangePassword(st: State, h: Hasher, salt: string, newPassword: string, token: string)
    : (out: (State, UserResponse))
    ensures Utf16Length(newPassword) <= 3 ==> out == (st, UserErrors([NewPasswordTooShort]))
    ensures (Utf16Length(newPassword) > 3 && FORGOT_PASSWORD_PREFIX + token !in st.redis)
            ==> out == (st, UserErrors([TokenExpired]))
    ensures (Utf16Length(newPassword) > 3 && FORGOT_PASSWORD_PREFIX + token in st.redis
             && FindUser(st.db.users, ById(st.redis[FORGOT_PASSWORD_PREFIX + token])).None?)
            ==> out == (st, UserErrors([UserGone]))
    ensures ResetAccepted(st, newPassword, token) ==>
              var key := FORGOT_PASSWORD_PREFIX + token;
              var u := FindUser(st.db.users, ById(st.redis[key])).value;
              && u in st.db.users && u.id == st.redis[key]
              && out.0.session == Some(u.id)
              && out.0.redis == st.redis - {key}
              && out.0.db == st.db.(users := SetPassword(st.db.users, u.id, h.hash(salt, newPassword)))
              && out.1 == Greeted(u, UserPayload(u))
    ensures out.1.UserPayload? ==> ResetAccepted(st, newPassword, token)
  {
    if Utf16Length(newPassword) <= 3 then (st, UserErrors([NewPasswordTooShort]))
    else
      var key := FORGOT_PASSWORD_PREFIX + token;
      if key !in st.redis then (st, UserErrors([TokenExpired]))
      else
        match FindUser(st.db.users, ById(st.redis[key]))
        case None => (st, UserErrors([UserGone]))
        case Some(user) =>
          var users' := SetPassword(st.db.users, user.id, h.hash(salt, newPassword));
          (State(st.db.(users := users'), Some(user.id), st.redis - {key}), Greeted(user, UserPayload(user)))
  }

  /** A reset token works once: after an accepted change the same token is
      expired, whatever password comes with it next. */
  lemma TokenIsSingleUse(st: State, h: Hasher, salt: string, newPassword: string, token: string,
                         salt2: string, newPassword2: string)
    requires ResetAccepted(st, newPassword, token)
    requires Utf16Length(newPassword2) > 3
    ensures ChangePassword(ChangePassword(st, h, salt, newPassword, token).0, h, salt2, newPassword2, token).1
            == UserErrors([TokenExpired])
  {
  }

  // ------------------------------------------------------- forgotPassword

  /** `forgotPassword(email)` with the fresh token `token`: an unknown email
      is refused and nothing is stored; a known one stores the user's id
      under the prefixed token and reports the email as sent, unless the
      greeting throws on an empty first name after the key is stored. */
  function ForgotPassword(st: State, email: string, token: string): (out: (State, UserResponse))
    ensures FindUser(st.db.users, ByEmail(email)).None? ==> out == (st, UserErrors([UnknownEmail]))
    ensures FindUser(st.db.users, ByEmail(email)).Some? ==>
              var u := FindUser(st.db.users, ByEmail(email)).value;
              && u in st.db.users && u.email == email
              && out.0 == st.(redis := st.redis[FORGOT_PASSWORD_PREFIX + token := u.id])
              && out.1 == Greeted(u, UserSuccess([EmailSent]))
  {
    match FindUser(st.db.users, ByEmail(email))
    case None => (st, UserErrors([UnknownEmail]))
    case Some(user) =>
      (st.(redis := st.redis[FORGOT_PASSWORD_PREFIX + token := user.id]), Greeted(user, UserSuccess([EmailSent])))
  }

  /** The whole reset: request a token for a user's email, change the
      password with it, and the user is signed in, can log in with the new
      password, and cannot use the token again. */
  lemma ResetPasswordFlow(st: State, h: Hasher, i: int, token: string, salt: string, newPassword: string)
    requires Valid(st.db) && Sound(h)
    requires 0 <= i < |st.db.users| && '@' !in st.db.users[i].username
    requires Utf16Length(newPassword) > 3
    ensures var u := st.db.users[i];
            var st1 := ForgotPassword(st, u.email, token).0;
            var (st2, r2) := ChangePassword(st1, h, salt, newPassword, token);
            && (Greetable(u) ==> r2 == UserPayload(u))
            && st2.session == Some(u.id)
            && Login(st2, h, u.username, newPassword).1 == UserPayload(u.(password := h.hash(salt, newPassword)))
            && ChangePassword(st2, h, salt, newPassword, token).1 == UserErrors([TokenExpired])
  {
    var u := st.db.users[i];
    FindUserUnique(st.db.users, ByEmail(u.email), i);
    var st1 := ForgotPassword(st, u.email, token).0;
    FindUserUnique(st1.db.users, ById(u.id), i);
    var (st2, r2) := ChangePassword(st1, h, salt, newPassword, token);
    var users2 := st2.db.users;
    assert users2 == SetPassword(st.db.users, u.id, h.hash(salt, newPassword));
    assert UsersUnique(users2) by {
      forall a, b | 0 <= a < b < |users2|
        ensures users2[a].id != users2[b].id
        ensures users2[a].username != users2[b].username
        ensures users2[a].email != users2[b].email
      {
      }
    }
    assert users2[i] == u.(password := h.hash(salt, newPassword));
    FindUserUnique(users2, ByUsername(u.username), i);
    assert h.verify(h.hash(salt, newPassword), newPassword);
  }

  /** Every refusal of the account resolvers leaves the session as it was:
      only an accepted login, registration or reset signs anyone in. A
      refused registration leaves both tables and Redis as they were too;
      only the id sequence may have moved on. */
  lemma RefusalsLeaveSessionAlone(st: State, h: Hasher, salt: string, input: RegisterInput,
                                  name: string, password: string, token: string)
    ensures Login(st, h, name, password).1.UserErrors? ==> Login(st, h, name, password).0 == st
    ensures Register(st, h, salt, input).1.UserErrors? ==>
              var st' := Register(st, h, salt, input).0;
              && st'.session == st.session && st'.redis == st.redis
              && st'.db.users == st.db.users && st'.db.submissions == st.db.submissions
              && st'.db.nextSubmissionId == st.db.nextSubmissionId
    ensures ChangePassword(st, h, salt, password, token).1.UserErrors?
            ==> ChangePassword(st, h, salt, password, token).0 == st
    ensures ForgotPassword(st, name, token).1.UserErrors? ==> ForgotPassword(st, name, token).0 == st
  {
  }
}
