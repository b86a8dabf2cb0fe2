/** `validateRegister`: the registration input checks, applied in a fixed
    order, the first failure reported alone. */
module ValidateRegister {
  import opened Common
  import opened Text

  /** The registration input: the validator reads `email`, `username` and
      `password`; `register` also stores the two names. */
  datatype RegisterInput = RegisterInput(
    username: string,
    firstName: string,
    lastName: string,
    email: string,
    password: string)

  const InvalidEmail := MessageField("email", "Invalid email")
  const UsernameTooShort := MessageField("username", "Username length must be greater than 2")
  const UsernameHasAt := MessageField("username", "Invalid symbol '@' in username")
  const PasswordTooShort := MessageField("password", "Password length must be greater than 3")

  predicate EmailOk(input: RegisterInput) { '@' in input.email }
  predicate UsernameLongEnough(input: RegisterInput) { Utf16Length(input.username) > 2 }
  predicate UsernameWithoutAt(input: RegisterInput) { '@' !in input.username }
  predicate PasswordLongEnough(input: RegisterInput) { Utf16Length(input.password) > 3 }

  /** All four checks pass. */
  predicate Acceptable(input: RegisterInput) {
    EmailOk(input) && UsernameLongEnough(input) && UsernameWithoutAt(input) && PasswordLongEnough(input)
  }

  /** `validateRegister(options)`: `null` when the input is acceptable,
      otherwise a one-element list naming the first failed check. */
  function Validate(input: RegisterInput): (r: Option<seq<MessageField>>)
    ensures r.None? <==> Acceptable(input)
    ensures r.Some? ==> |r.value| == 1
    ensures !EmailOk(input) ==> r == Some([InvalidEmail])
    ensures EmailOk(input) && !UsernameLongEnough(input) ==> r == Some([UsernameTooShort])
    ensures (EmailOk(input) && UsernameLongEnough(input) && !UsernameWithoutAt(input))
            ==> r == Some([UsernameHasAt])
    ensures (EmailOk(input) && UsernameLongEnough(input) && UsernameWithoutAt(input)
             && !PasswordLongEnough(input))
            ==> r == Some([PasswordTooShort])
  {
    if !EmailOk(input) then Some([InvalidEmail])
    else if !UsernameLongEnough(input) then Some([UsernameTooShort])
    else if !UsernameWithoutAt(input) then Some([UsernameHasAt])
    else if !PasswordLongEnough(input) then Some([PasswordTooShort])
    else None
  }

  /** Every check the input fails, in the order the validator applies them.
      This is a reference for `Validate`, which stops at the first. */
  function FailedChecks(input: RegisterInput): seq<MessageField> {
    (if EmailOk(input) then [] else [InvalidEmail])
    + (if UsernameLongEnough(input) then [] else [UsernameTooShort])
    + (if UsernameWithoutAt(input) then [] else [UsernameHasAt])
    + (if PasswordLongEnough(input) then [] else [PasswordTooShort])
  }

  /** The validator reports exactly the first of the failed checks, and
      nothing when none failed. */
  lemma ValidateReportsFirstFailure(input: RegisterInput)
    ensures Validate(input).None? <==> FailedChecks(input) == []
    ensures Validate(input).Some? ==> Validate(input).value == [FailedChecks(input)[0]]
  {
  }

  /** Length is counted in UTF-16 code units: a two-character username made of
      one astral character (two code units) and one other character passes the
      length check though it has only two characters. */
  lemma UsernameLengthCountsCodeUnits()
    ensures UsernameLongEnough(RegisterInput("\U{1F600}a", "", "", "a@b", "pass"))
  {
    assert Utf16Length("\U{1F600}a") == 3;
  }
}
