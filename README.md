# Task manager backend: the domain-service layer in Dafny

This project models the core of a small Express/Firestore backend for users and
their tasks. The repository ships the same code twice: a plain server under `src/`
and a Firebase Cloud Functions build under `functions/`. The model covers:

- the email validator `isValidEmail`;
- the `User` and `Task` entities;
- `UserService`, `TaskService` and `AuthService.login`, over in-memory
  repositories that stand in for the Firestore ones;
- the error classes (`AppError`, `BadRequestError`, `NotFoundError`) and how
  `errorMiddleware` picks a status and a message.

Modules, one per component:

- `Wrappers`, `Timestamps` (`wrappers.dfy`): `Option` for an absent or null value,
  `Result` for a call that returns or throws, and `Time`.
- `ValidateEmail` (`validate_email.dfy`):
  - `MatchesPattern` says what `^[^\s@]+@[^\s@]+\.[^\s@]+$` means on a string.
  - `IsValidEmail` is a character-level recogniser (an automaton).
  - `IsValidEmailIff` proves the two agree on every string.
  - `\s` is JavaScript's class: the ECMAScript WhiteSpace and LineTerminator code points.
- `Errors` (`errors.dfy`): one datatype covers a plain `Error` and an `AppError`
  with its `name` and `statusCode`. The constructors and `ErrorResponse` (the
  status and the `{ message }` body of `errorMiddleware`) are functions over it.
- `Users` (`users.dfy`): the `User` entity, a `UserRepository` class holding a
  `map` keyed by email, and the `UserService` class.
- `Tasks` (`tasks.dfy`): the `Task` entity and both constructors, the update rule
  `Patched`, the listing `TasksOf`, and a `TaskRepository` class. That class holds
  a `map` keyed by identifiers from a counter.
- `TaskServices` (`task_service.dfy`): the `TaskService` class.
- `Auth` (`auth.dfy`): the `AuthService` class. Its token signer is a
  function-valued field.
- `Scenarios` (`scenarios.dfy`): use-case sequences proved from the services'
  contracts alone.

Each repository keeps a ghost log of the calls it receives. The services'
contracts use it to say which repository operations run, and in what order. For
example, "no lookup before the empty check" and "`delete` is never called for a
missing task" are stated on the log.

The `src/` and `functions/` copies of the validator, the `User` entity,
`AppError`, `UserService.createUser`, `AuthService.login` and the status and
message selection of `errorMiddleware` are identical. Each is modelled once, and
the table cites either copy. Only the `src/` middleware logs the error with
`console.error` outside production; that logging is left out. The copies differ
in four places:

- `BadRequestError`: modelled as `BadRequestError` and `FunctionsBadRequestError`.
- The `Task` constructor: modelled as `NewTask` and `NewPersistedTask`.
- `TaskService`: only `functions/` has `updateTask` and `findAllByUser`; both are modelled.
- The argument of `createTask`: `src/` builds the task from the owner, title and
  description only, while `functions/` hands the whole request body to
  `new Task(data)`. This difference is not modelled (see "## Left out").

`src/modules/users/application/user.service.ts` has no `findUser`, although the
`src/` `TaskService` calls it. The model uses the `functions/` `findUser` for both.

Two facts of the code shape the error contracts:

- A duplicate email (`createUser`) and an unknown email (`findUser`) both raise a
  400 `BadRequestError`. Neither raises a conflict or a not-found kind.
- `TaskService` has an `if (!user) throw new AppError('User does not exist', 404)`
  branch at `functions/src/modules/tasks/application/task.service.ts:46` and `:116`.
  It is unreachable: `findUser` either returns a user or throws first. So an
  unknown owner gets 400 'Email does not exist', and the model has no such branch.

## Model

| member | source | states |
|---|---|---|
| `ValidateEmail.IsValidEmailIff` | src/shared/utils/validate-email.ts:15-17 | the recogniser accepts a string exactly when the anchored pattern matches it: a non-empty local part, one `@`, then a domain with a `.` that has a character before and after it, and no whitespace or other `@` anywhere |
| `ValidateEmail.StartAccepts` | functions/src/shared/utils/validate-email.ts:16 | from its start state the recogniser accepts exactly the strings with an `@` at some index k > 0 that splits them into an all-`[^\s@]` local part and a domain matching `[^\s@]+\.[^\s@]+` |
| `ValidateEmail.ValidEmailShape` | functions/src/shared/utils/validate-email.ts:16 | every accepted string has exactly one `@`, neither first nor last, and no whitespace character |
| `ValidateEmail.AcceptsParts` | src/shared/utils/validate-email.ts:16 | any non-empty local part, `@`, non-empty host, `.`, non-empty suffix drawn from `[^\s@]` is accepted (so dots and `+` are allowed in the local part) |
| `ValidateEmail.AcceptsPlainAddress` | tests/shared/utils/validate-email.spec.ts:15 | `test@example.com` is accepted |
| `ValidateEmail.AcceptsDotsAndPlusInLocalPart` | tests/functions/shared/utils/validate-email.spec.ts:16 | `user.name+tag+sorting@example.com` is accepted |
| `ValidateEmail.RejectsMissingAt` | tests/shared/utils/validate-email.spec.ts:21 | `plainaddress` is rejected |
| `ValidateEmail.RejectsEmptyLocalPart` | tests/shared/utils/validate-email.spec.ts:22 | `@@example.com` is rejected |
| `ValidateEmail.RejectsDotRightAfterAt` | tests/functions/shared/utils/validate-email.spec.ts:26 | `test@.com` is rejected: the domain's dot needs a character before it |
| `ValidateEmail.RejectsDomainWithoutDot` | tests/functions/shared/utils/validate-email.spec.ts:27-35 | `test@com` and the empty string are rejected |
| `Errors.NewAppError` | src/shared/middlewares/error.middleware.ts:10-19 | an `AppError` keeps its message, is named `AppError`, and its status defaults to 500 only when omitted |
| `Errors.BadRequestError` | src/shared/errors/bad-request.error.ts:8-10 | status 400, name `BadRequestError`; the message is `'Bad request'` only when omitted, and any supplied message, `''` included, is kept |
| `Errors.FunctionsBadRequestError` | functions/src/shared/errors/bad-request.error.ts:17-21 | status 400, name `BadRequestError`; a non-empty message is kept, and an omitted or empty one becomes `"Bad request"` |
| `Errors.NotFoundError` | src/shared/errors/not-found.error.ts:17-21 | status 404, name `NotFoundError`; a non-empty message is kept, and an omitted or empty one becomes `'Resource not found'` |
| `Errors.BadRequestVariantsAgree` | functions/src/shared/errors/bad-request.error.ts:18 | the two `BadRequestError` classes build the same error for every message except `''` |
| `Errors.ErrorResponse` | src/shared/middlewares/error.middleware.ts:44-49 | the status is the error's non-zero status code, else 500 (always for a plain `Error`); the body message is the error's message when non-empty, else `'Internal Server Error'`; neither is ever falsy |
| `Errors.ResponsesOfKinds` | functions/src/shared/middlewares/error.middleware.ts:44-47 | bad requests answer 400 and not-found errors 404, with the message passed through; a plain `Error` answers 500 |
| `Errors.ResponseIsLossless` | functions/src/shared/middlewares/error.middleware.ts:44-47 | for application errors with a non-zero status and a non-empty message, two responses are equal exactly when status and message are |
| `Users.NewUser` | src/modules/users/domain/user.entity.ts:18-27 | construction succeeds exactly when the email matches the pattern (the empty email included in the failures), then keeps the email verbatim and `createdAt` as given, else now; otherwise it throws 'User must have a valid email' |
| `Users.EmptyEmailIsRejected` | functions/src/modules/users/domain/user.entity.ts:23-25 | `''` and `invalid-email` both fail with 'User must have a valid email' |
| `Users.UserRepository.FindByEmail` | src/modules/users/domain/user.repository.interface.ts:13 | returns the stored user for the email when there is one, else null; logs the lookup and changes nothing else |
| `Users.UserRepository.Create` | src/modules/users/domain/user.repository.interface.ts:19 | stores the user under its email and logs the call |
| `Users.UserService.CreateUser` | src/modules/users/application/user.service.ts:19-33 | succeeds exactly when the email is new and valid; a taken email fails with 400 'Email is already in use' and an invalid one with the entity's error; on failure nothing is written (only the lookup is logged); on success exactly that user is added after one lookup and one `create` |
| `Users.UserService.FindUser` | functions/src/modules/users/application/user.service.ts:48-56 | returns the stored user exactly when the email is present, else fails with 400 'Email does not exist'; the store is unchanged |
| `Tasks.NewTaskDefaults` | src/modules/tasks/domain/task.entity.ts:25-38 | owner and title are copied without validation; an omitted description becomes `''`, an omitted `completed` false, and an omitted `completedAt` null; supplied values are kept; `createdAt` is the construction instant and there is no id |
| `Tasks.PersistedTaskKeepsIdentity` | functions/src/modules/tasks/domain/task.entity.ts:29-45 | the `functions/` constructor also takes `createdAt` (else now) and `id` from its argument; otherwise it equals the `src/` constructor, and it is identical on data without them |
| `Tasks.CreatedTaskIsIncomplete` | functions/src/modules/tasks/domain/task.entity.ts:41-42 | a task built from creation data is incomplete with a null completion instant; the constructor alone can build a completed task with a null instant |
| `Tasks.Patched` | functions/src/modules/tasks/application/task.service.ts:96-101 | each supplied title or description replaces the old one (`''` included), and an omitted one is kept; `completed` true sets `completedAt` to now, false clears it, and absent leaves both untouched; id, owner and `createdAt` never change |
| `Tasks.PatchKeepsConsistency` | functions/src/modules/tasks/application/task.service.ts:98-101 | after an update that supplies `completed`, or of a task that already satisfies it, `completed` holds exactly when `completedAt` is set |
| `Tasks.PatchIsIdempotent` | functions/src/modules/tasks/application/task.service.ts:96-101 | repeating an update at the same instant changes nothing more |
| `Tasks.CompleteThenReopen` | functions/src/modules/tasks/application/task.service.ts:98-101 | completing a task then reopening it leaves it incomplete with a null completion instant |
| `Tasks.TasksOfExactly` | src/modules/tasks/domain/task.repository.interface.ts:20-26 | the listing for an email holds exactly the stored tasks with that owner, each once, in strictly ascending identifier order |
| `Tasks.TaskRepository.Create` | src/modules/tasks/domain/task.repository.interface.ts:12-18 | stores the task under a fresh identifier and logs the call |
| `Tasks.TaskRepository.FindById` | src/modules/tasks/domain/task.repository.interface.ts:28-34 | returns the stored task when present, else null; logs the lookup |
| `Tasks.TaskRepository.FindAllByUser` | functions/src/modules/tasks/infrastructure/task.firestore.repository.ts:22-43 | a loop over the identifiers returns the owner's tasks in creation order |
| `Tasks.TaskRepository.Update` | src/modules/tasks/domain/task.repository.interface.ts:36-42 | overwrites the stored task with the same identifier and returns it |
| `Tasks.TaskRepository.Delete` | src/modules/tasks/domain/task.repository.interface.ts:44-50 | removes exactly that identifier |
| `TaskServices.TaskNotFound` | src/modules/tasks/application/task.service.ts:36 | 'Task not found' reaches the client as a 404 with that message |
| `TaskServices.TaskService.CreateTask` | src/modules/tasks/application/task.service.ts:19-31 | an empty owner email fails first and an empty title second, both with 400 and before any lookup; an unknown owner fails with `findUser`'s 400 'Email does not exist' and nothing is written; otherwise exactly one task is added; it is incomplete, has the given owner and title, and is returned without an id; the completion invariant of the store is kept |
| `TaskServices.TaskService.FindById` | src/modules/tasks/application/task.service.ts:33-39 | returns the stored task exactly when the id is present, else 404 'Task not found' |
| `TaskServices.TaskService.DeleteTask` | src/modules/tasks/application/task.service.ts:46-52 | an absent id fails with 404 and `delete` is never called; a present id removes that task only |
| `TaskServices.TaskService.UpdateTask` | functions/src/modules/tasks/application/task.service.ts:89-104 | an absent id fails with 404 and `update` is never called; otherwise the stored task becomes `Patched(old, patch, now)`, is returned, and no other task changes; the completion invariant is kept |
| `TaskServices.TaskService.FindAllByUser` | functions/src/modules/tasks/application/task.service.ts:113-119 | an unknown owner fails with 400 'Email does not exist' without querying tasks; otherwise the result is exactly the owner's stored tasks |
| `Auth.AuthService.Login` | src/modules/auth/application/auth.service.ts:19-32 | an empty email fails with 400 'userEmail is required' before any lookup; an unknown one fails with 404 'User not found'; a known one returns `generateToken(userEmail)`; the store is never changed and is consulted directly |
| `Scenarios.CreateUserTwice` | functions/src/modules/users/application/user.service.ts:27-39 | registering an email twice: the second call fails with 'Email is already in use' and the first record survives |
| `Scenarios.CreateThenFind` | functions/src/modules/users/application/user.service.ts:34-55 | after a successful `createUser(e)`, `findUser(e)` returns that user |
| `Scenarios.CreateCompleteReopen` | functions/src/modules/tasks/application/task.service.ts:41-104 | a task created for a registered owner starts incomplete with its title; completing then reopening it ends with `completed` false and `completedAt` null |
| `Scenarios.CreateTaskForUnknownOwner` | functions/src/modules/tasks/application/task.service.ts:45-49 | a task for a never-registered email fails with 400 'Email does not exist' |
| `Scenarios.LoginFailures` | functions/src/modules/auth/application/auth.service.ts:26-39 | login with an unknown email answers 404 'User not found'; with an empty one, 400 'userEmail is required' |
| `Scenarios.CreateUserWithInvalidEmail` | src/modules/users/application/user.service.ts:27 | an invalid email fails in the `User` constructor with a plain `Error`, which the middleware answers with 500 |

## Left out

- Firestore: the repositories are in-memory maps. The Firestore repositories,
  `config/firebase.ts` and their quirks are not part of this model. The quirks:
  - `update` re-stamps `completedAt`.
  - `create` does not store `completedAt`.
  - `findById` and `findAllByUser` rebuild `createdAt` at read time, since
    neither passes the stored `createdAt` to the `Task` constructor.
  - The `src/` task repository leaves methods unimplemented.
  - `add` would store a duplicate user document.
- Storage and signer failures: the in-memory stores and the token signer never
  fail, so the propagation of their errors is not modelled.
- `Tasks.TaskRepository.FindAllByUser`: Firestore orders by ascending `createdAt`,
  but the model returns ascending identifier (creation) order. The two coincide
  only when the clock never goes back.
- `Tasks.TaskRepository.Update`: requires a stored task, because the service only
  updates a task it has just found. Firestore's error for a missing document is
  not modelled.
- Identifiers: task ids are natural numbers from a counter, not Firestore's
  generated strings.
- `TaskServices.TaskService.CreateTask`: the `functions/` service hands its
  whole argument to `new Task(data)`, and the controller passes the request body.
  The model takes only the declared creation fields (owner, title, description).
  Extra body fields, such as `completed` or `id`, are not modelled.
- Controllers, routes, `app`/`index`, DTO files, `express.d.ts` and the
  environment loading are HTTP transport and configuration.
- JWT signing and verification: `generateToken` is an uninterpreted function
  field of `AuthService`, and `auth.middleware` is not part of this model.
- `Auth.AuthService.Login`: the token is a function of the email alone, so two
  logins of the same email return the same token. `jwt.sign` also stamps the
  issue and expiry times from the clock and reads the `JWT_SECRET` secret; that
  dependence on the clock and the secret is abstracted away.
- `console.error` logging in `errorMiddleware`, and the write of the response.
- Time: `new Date()` is the caller-supplied `now`.
- `async`/`await`: every call is sequential, so concurrency and read-then-write
  races are out of scope.
- `isValidEmail(null)`, `(undefined)` and `(123)`: the argument is always a string.
- Characters: the recogniser reads Unicode scalar values, where JavaScript reads
  UTF-16 code units. No surrogate is whitespace or `@`, so the results agree.
- JavaScript falsiness of a `NaN` status code: status codes are integers, and only
  0 is falsy.
