/** The User entity, an in-memory user repository standing in for the Firestore
    one, and `UserService`. */
module Users {
  import opened Wrappers
  import opened Timestamps
  import opened ValidateEmail
  import opened Errors

  /** A user: an email, immutable after construction, and a creation instant. */
  datatype User = User(email: string, createdAt: Time)

  const InvalidEmail := "User must have a valid email"
  const EmailInUse := "Email is already in use"
  const EmailUnknown := "Email does not exist"

  /** `new User(email, createdAt?)`: throws a plain `Error` unless the email is
      non-empty and passes `isValidEmail`; `createdAt` defaults to now. */
  function NewUser(email: string, createdAt: Option<Time>, now: Time): (r: Result<User, Error>)
    ensures r.Success? <==> MatchesPattern(email)
    ensures r.Success? ==> r.value.email == email && IsValidEmail(r.value.email)
    ensures r.Success? && createdAt.Some? ==> r.value.createdAt == createdAt.value
    ensures r.Success? && createdAt.None? ==> r.value.createdAt == now
    ensures r.Failure? ==> r.error == PlainError(InvalidEmail)
  {
    IsValidEmailIff(email);
    if email == "" || !IsValidEmail(email) then Failure(PlainError(InvalidEmail))
    else Success(User(email, createdAt.GetOr(now)))
  }

  /** The empty email fails the same way as any malformed one. */
  lemma EmptyEmailIsRejected(now: Time)
    ensures NewUser("", None, now) == Failure(PlainError(InvalidEmail))
    ensures NewUser("invalid-email", None, now) == Failure(PlainError(InvalidEmail))
  {
    var s := "invalid-email";
    assert !MatchesPattern(s) by {
      assert forall j :: 0 <= j < |s| ==> s[j] != '@';
    }
  }

  /** The calls a user repository receives, in order. */
  datatype UserCall = FindByEmail(email: string) | Create(user: User)

  /** An in-memory user repository keyed by email. */
  class UserRepository {
    var users: map<string, User>
    ghost var calls: seq<UserCall>

    /** Each user is stored under its own email, and was built by `NewUser`. */
    ghost predicate Valid()
      reads this
    {
      forall e :: e in users ==> users[e].email == e && IsValidEmail(e)
    }

    constructor ()
      ensures Valid() && users == map[] && calls == []
    {
      users := map[];
      calls := [];
    }

    /** `findByEmail(email)`: the user if found, null otherwise. */
    method FindByEmail(email: string) returns (u: Option<User>)
      requires Valid()
      modifies this`calls
      ensures calls == old(calls) + [UserCall.FindByEmail(email)]
      ensures u.Some? <==> email in users
      ensures u.Some? ==> u.value == users[email] && u.value.email == email
    {
      calls := calls + [UserCall.FindByEmail(email)];
      u := if email in users then Some(users[email]) else None;
    }

    /** `create(user)`: persists the user. */
    method Create(user: User)
      requires Valid() && IsValidEmail(user.email)
      modifies this
      ensures Valid()
      ensures users == old(users)[user.email := user]
      ensures calls == old(calls) + [UserCall.Create(user)]
    {
      users := users[user.email := user];
      calls := calls + [UserCall.Create(user)];
    }
  }

  class UserService {
    const repository: UserRepository

    constructor (repository: UserRepository)
      ensures this.repository == repository
    {
      this.repository := repository;
    }

    /** `createUser(email)`: fails with 400 when the email is taken, otherwise
        builds the user (which may throw) and persists it. */
    method CreateUser(email: string, now: Time) returns (r: Result<User, Error>)
      requires repository.Valid()
      modifies repository
      ensures repository.Valid()
      ensures r.Success? <==> email !in old(repository.users) && IsValidEmail(email)
      ensures email in old(repository.users) ==>
        r == Failure(BadRequestError(Some(EmailInUse)))
      ensures email !in old(repository.users) && !IsValidEmail(email) ==>
        r == Failure(PlainError(InvalidEmail))
      ensures r.Success? ==>
        && r.value == User(email, now)
        && repository.users == old(repository.users)[email := r.value]
        && repository.calls == old(repository.calls) + [UserCall.FindByEmail(email), UserCall.Create(r.value)]
      ensures r.Failure? ==>
        && repository.users == old(repository.users)
        && repository.calls == old(repository.calls) + [UserCall.FindByEmail(email)]
    {
      var existing := repository.FindByEmail(email);
      if existing.Some? {
        return Failure(BadRequestError(Some(EmailInUse)));
      }
      var user := NewUser(email, None, now);
      if user.Failure? {
        return Failure(user.error);
      }
      repository.Create(user.value);
      r := Success(user.value);
    }

    /** `findUser(email)`: the stored user, or a 400 when there is none. */
    method FindUser(email: string) returns (r: Result<User, Error>)
      requires repository.Valid()
      modifies repository`calls
      ensures repository.calls == old(repository.calls) + [UserCall.FindByEmail(email)]
      ensures r.Success? <==> email in repository.users
      ensures r.Success? ==> r.value == repository.users[email] && r.value.email == email
      ensures r.Failure? ==> r.error == FunctionsBadRequestError(Some(EmailUnknown))
    {
      var existing := repository.FindByEmail(email);
      if existing.None? {
        return Failure(FunctionsBadRequestError(Some(EmailUnknown)));
      }
      r := Success(existing.value);
    }
  }
}
