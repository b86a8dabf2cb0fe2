/** The two resolver middlewares: `isAuth` lets a request through when the
    session holds a user id, `isAdmin` when that id also belongs to an
    administrator. A middleware that refuses throws, and the resolver behind
    it (`next`) never runs. */
module Middleware {
  import opened Common
  import opened Entities

  const NotLoggedIn := "You are not authorized to perform this action. Please login and try again."
  const NotAuthorized := "You are not authorized to perform this action."

  /** JavaScript truthiness of `session.userId`: `undefined` and `0` are false. */
  predicate SignedIn(session: Option<int>) {
    session.Some? && session.value != 0
  }

  /** `isAuth`: throws unless the session is signed in, and otherwise returns
      what `next` returns. It reads the session and nothing else. */
  function IsAuth<T>(session: Option<int>, next: () -> T): (r: Result<T>)
    ensures r.Thrown? <==> !SignedIn(session)
    ensures r.Thrown? ==> r.message == NotLoggedIn
    ensures r.Ok? ==> r.value == next()
  {
    if !SignedIn(session) then Thrown(NotLoggedIn) else Ok(next())
  }

  /** `isAdmin`: throws the login message when the session is not signed in,
      before any lookup; throws the distinct not-authorized message when no
      user has the session's id or that user is not an administrator; and
      otherwise returns what `next` returns. */
  function IsAdmin<T>(users: seq<User>, session: Option<int>, next: () -> T): (r: Result<T>)
    ensures !SignedIn(session) ==> r == Thrown(NotLoggedIn)
    ensures SignedIn(session) && FindUser(users, ById(session.value)).None?
            ==> r == Thrown(NotAuthorized)
    ensures r.Ok? ==> r.value == next()
  {
    if !SignedIn(session) then Thrown(NotLoggedIn)
    else
      var user := FindUser(users, ById(session.value));
      if user.None? || !user.value.isAdmin then Thrown(NotAuthorized)
      else Ok(next())
  }

  /** `next` runs exactly when the session is signed in as a user whose
      `isAdmin` flag is set. */
  lemma IsAdminAdmitsExactlyAdmins<T>(users: seq<User>, session: Option<int>, next: () -> T)
    requires UsersUnique(users)
    ensures IsAdmin(users, session, next).Ok? <==>
            SignedIn(session)
            && exists i :: 0 <= i < |users| && users[i].id == session.value && users[i].isAdmin
  {
    if SignedIn(session) {
      if i :| 0 <= i < |users| && users[i].id == session.value {
        FindUserUnique(users, ById(session.value), i);
      }
    }
  }

  /** A signed-in user without the flag is refused and `next` does not run. */
  lemma IsAdminRefusesNonAdmin<T>(users: seq<User>, session: Option<int>, next: () -> T, i: int)
    requires UsersUnique(users)
    requires 0 <= i < |users| && SignedIn(session) && users[i].id == session.value
    requires !users[i].isAdmin
    ensures IsAdmin(users, session, next) == Thrown(NotAuthorized)
  {
    FindUserUnique(users, ById(session.value), i);
  }

  /** The administrator gate is the stronger one: whatever it admits, the
      login gate admits too, with the same result. */
  lemma IsAdminImpliesIsAuth<T>(users: seq<User>, session: Option<int>, next: () -> T)
    ensures IsAdmin(users, session, next).Ok? ==> IsAuth(session, next) == IsAdmin(users, session, next)
  {
  }

  /** A caller can tell the two refusals apart. */
  lemma RefusalsAreDistinct()
    ensures NotLoggedIn != NotAuthorized
  {
    assert |NotLoggedIn| != |NotAuthorized|;
  }
}
