/** Use-case sequences across the services, proved from the services' contracts. */
module Scenarios {
  import opened Wrappers
  import opened Timestamps
  import opened ValidateEmail
  import opened Errors
  import opened Users
  import opened Tasks
  import opened TaskServices
  import opened Auth

  /** Registering the same email twice: the second call fails with 400 and the
      first call's record survives. */
  method CreateUserTwice(service: UserService, email: string, now: Time, later: Time)
    returns (first: Result<User, Error>, second: Result<User, Error>)
    requires service.repository.Valid()
    requires email !in service.repository.users && IsValidEmail(email)
    modifies service.repository
    ensures first == Success(User(email, now))
    ensures second == Failure(BadRequestError(Some(EmailInUse)))
    ensures service.repository.users == old(service.repository.users)[email := User(email, now)]
  {
    first := service.CreateUser(email, now);
    second := service.CreateUser(email, later);
  }

  /** After a successful `createUser(e)`, `findUser(e)` returns that user. */
  method CreateThenFind(service: UserService, email: string, now: Time)
    returns (created: Result<User, Error>, found: Result<User, Error>)
    requires service.repository.Valid()
    modifies service.repository
    ensures created.Success? ==> found == created && found.value.email == email
  {
    created := service.CreateUser(email, now);
    found := service.FindUser(email);
  }

  /** Register an owner, then create a task for it: the task comes back
      incomplete with the given title; complete it and then reopen it: it ends
      incomplete with no completion instant and the same title. */
  method CreateCompleteReopen(email: string, title: string, now: Time, first: Time, second: Time)
    returns (created: Result<Task, Error>, reopened: Result<Task, Error>)
    requires IsValidEmail(email) && title != ""
    ensures created.Success? && created.value.title == title && created.value.userEmail == email
    ensures !created.value.completed && created.value.completedAt.None?
    ensures reopened.Success? && !reopened.value.completed && reopened.value.completedAt.None?
    ensures reopened.value.title == title
  {
    var users := new UserRepository();
    var userService := new UserService(users);
    var tasks := new TaskRepository();
    var taskService := new TaskService(tasks, userService);
    var user := userService.CreateUser(email, now);
    var id := tasks.nextId;
    created := taskService.CreateTask(email, title, None, now);
    var done := taskService.UpdateTask(id, TaskPatch(None, None, Some(true)), first);
    reopened := taskService.UpdateTask(id, TaskPatch(None, None, Some(false)), second);
  }

  /** A task for an email that was never registered is refused with
      'Email does not exist' and nothing is stored. */
  method CreateTaskForUnknownOwner(email: string, title: string, now: Time) returns (r: Result<Task, Error>)
    requires email != "" && title != ""
    ensures r == Failure(FunctionsBadRequestError(Some(EmailUnknown)))
    ensures ErrorResponse(r.error) == Response(400, EmailUnknown)
  {
    var users := new UserRepository();
    var userService := new UserService(users);
    var tasks := new TaskRepository();
    var taskService := new TaskService(tasks, userService);
    r := taskService.CreateTask(email, title, None, now);
    assert tasks.tasks == map[];
  }

  /** Logging in with an unregistered email answers 404 'User not found'; with
      an empty one, 400 'userEmail is required'. */
  method LoginFailures(generateToken: string -> string) returns (unknown: Result<string, Error>, empty: Result<string, Error>)
    ensures unknown.Failure? && ErrorResponse(unknown.error) == Response(404, UserNotFound)
    ensures empty.Failure? && ErrorResponse(empty.error) == Response(400, EmailMissing)
  {
    var users := new UserRepository();
    var auth := new AuthService(users, generateToken);
    unknown := auth.Login("missing@b.com");
    empty := auth.Login("");
  }

  /** An invalid email reaches `createUser`'s constructor and surfaces as a 500. */
  method CreateUserWithInvalidEmail(now: Time) returns (r: Result<User, Error>)
    ensures r.Failure? && ErrorResponse(r.error) == Response(500, InvalidEmail)
  {
    var users := new UserRepository();
    var userService := new UserService(users);
    EmptyEmailIsRejected(now);
    r := userService.CreateUser("invalid-email", now);
  }
}
