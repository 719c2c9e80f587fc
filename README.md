# Task tracker backend: a verified model

This project models the core of a small task-tracker web backend. Users
register and log in. They receive a pair of bearer tokens and use them to
create, list, update and delete their own tasks. The model covers:

- **task store** (`TaskRepo`). It creates a task with a fresh id and
  status pending, looks one up, lists a user's tasks filtered by status,
  updates only the fields a request sent, and deletes.
- **task service** (`TaskSvc`). Every update or delete first loads the
  task and then compares its owner with the requester. A missing task raises
  `TaskNotFound`, and a task of another user raises `TaskAccessForbidden`;
  in both cases nothing changes.
- **request bodies of task endpoints** (`TaskDto`): the title length
  bounds, optional fields, and the three-valued status.
- **the user store** (`UserRepo`). Usernames and emails are each unique, and
  a conflicting create rolls back. A search filters on the conjunction of
  the criteria given, rejects an empty search, and returns the row or its
  public projection.
- **the user service** (`UserSvc`): password hashing before storage, the
  pagination guard, and search.
- **registration and login** (`AuthSvc`, `AuthDto`). An unknown username and
  a wrong password fail identically.
- **token issuing** (`Security`), whose subject is `str(user.id)`.
- **the current-user dependency** (`CurrentUser`). Every failure becomes one
  401 response.
- **the CORS setting source** (`Cors`). It splits a comma-separated
  environment value and strips each item.
- **Python text and number semantics these rely on**: `str.strip`,
  `str.split` (`Strings`), and `int()` / `str()` on integers (`Decimal`).
- **a walk-through** (`Scenario`). One user registers and creates a task, and
  a second user is refused when updating it.

The stores are classes over a `map` from id to row, plus the next id to
assign. Methods that change them state their whole new state, and each
store's `Valid()` invariant is preserved. Password hashing and the token
codec are parameters: records of functions. Their soundness (a password
verifies against its hash; a token verifies with the subject it was issued
for) is a predicate that the lemmas needing it require.

## Model

| member | source | states |
|---|---|---|
| `Strings.StripStart` | backend/config/cors.py:42 | the index of the first character that is not whitespace: everything before it is whitespace |
| `Strings.StripEnd` | backend/config/cors.py:42 | the index just past the last character that is not whitespace, not before the start: everything after it is whitespace |
| `Strings.Strip` | backend/config/cors.py:42 | the result is the input from the first to the last character that is not whitespace, character for character, and neither starts nor ends with whitespace |
| `Strings.StripKeepsOrDrops` | backend/config/cors.py:42 | each character of the input is either whitespace or kept by the strip |
| `Strings.Split` | backend/config/cors.py:42 | splitting on a character gives one more piece than the number of separators, and no piece contains the separator |
| `Strings.JoinSplit` | backend/config/cors.py:42 | joining the pieces of a split with the separator gives back the input |
| `Strings.SplitJoin` | backend/config/cors.py:42 | splitting the join of separator-free pieces gives back those pieces |
| `Cors.CommaList` | backend/config/cors.py:42 | one item per comma-separated piece (commas + 1), item i is piece i stripped, no item holds a comma or has surrounding whitespace |
| `Cors.PrepareFieldValue` | backend/config/cors.py:40-44 | text for one of the four list fields becomes the comma list; any other field, or a list field whose value is not text, passes through unchanged |
| `Cors.PreparedItemsFollowInput` | backend/config/cors.py:42 | the items follow the input's order: the unstripped pieces joined by commas are the input, and item i is piece i stripped |
| `Cors.StripSubsequence` | backend/config/cors.py:42 | stripping never introduces a character absent from the input |
| `TaskDto.StatusOf` | backend/task/enums.py:4-8 | a status value maps back to the member with that value; any other string is no status |
| `TaskDto.ToDto` | backend/task/dto.py:32-36 | a row becomes a response body exactly when its title is 1 to 255 characters, and the body is the row itself |
| `TaskDto.ParseTaskCreate` | backend/task/dto.py:11-16 | a create body is built exactly when the title is given as a string of 1 to 255 characters; the description defaults to null; otherwise the error names `title` |
| `TaskDto.ParseTaskUpdate` | backend/task/dto.py:19-25 | every field is optional and nullable; a string title must be 1 to 255 characters and a string status one of the three values; which fields were sent is kept; the error lists the failing fields |
| `TaskRepo.Select` | backend/task/repository/task.py:72-76 | all and only the rows of the owner (with the status when one is given), each once, in ascending id order |
| `TaskRepo.SentFields` | backend/task/repository/task.py:90 | `model_dump(exclude_unset=True)`: one assignment per field the body was sent with, carrying the value sent, each field once and in declaration order |
| `TaskRepo.SetAttribute` | backend/task/repository/task.py:92 | `setattr`: the named attribute takes the value and the other two keep theirs |
| `TaskRepo.SentFieldsArePatched` | backend/task/repository/task.py:90-92 | assigning the fields sent, one after another, equals the field-by-field patch in which each sent field takes its value and every other field keeps its own |
| `TaskRepo.Committed` | backend/task/repository/task.py:89-95 | the committed row keeps id and owner and takes exactly the sent fields; a null title or status fails as a NOT NULL violation |
| `TaskRepo.NoChangesCommitsSameRow` | backend/task/repository/task.py:90-95 | an update that sends no field commits the row unchanged |
| `TaskRepo.CommitIdempotent` | backend/task/repository/task.py:90-95 | applying the same update twice equals applying it once |
| `TaskRepo.CommitKeepsTitleValid` | backend/task/dto.py:23 | a validated update keeps a valid title valid, so an updated row is still a valid response body |
| `TaskRepo.AssignAll` | backend/task/repository/task.py:91-92 | assigning the sent fields one at a time in a loop gives the attributes after all the assignments |
| `TaskRepo.TaskRepository.Create` | backend/task/repository/task.py:35-39 | one new row under a fresh id with the given title, description and owner and status pending; other rows unchanged |
| `TaskRepo.TaskRepository.GetById` | backend/task/repository/task.py:54-57 | the stored row exactly when the id is present, `TaskNotFound` otherwise |
| `TaskRepo.TaskRepository.GetAllForUser` | backend/task/repository/task.py:72-76 | all and only the stored rows of the owner, with the status when one is given, each once |
| `TaskRepo.TaskRepository.Update` | backend/task/repository/task.py:89-95 | a missing id raises `TaskNotFound`; otherwise the row becomes the committed row and no other row changes; a failed commit changes nothing |
| `TaskRepo.TaskRepository.Delete` | backend/task/repository/task.py:104-106 | exactly the given row is removed; a missing id raises `TaskNotFound` and nothing changes |
| `TaskSvc.Authorize` | backend/task/service.py:76-78 | the lookup's `TaskNotFound` passes through first; a task of another user becomes `TaskAccessForbidden`; only the owner's task goes on |
| `TaskSvc.TaskService.GetTasksForUser` | backend/task/service.py:40-41 | one response body per task the repository lists, in the same order, each owned by the user and with the requested status |
| `TaskSvc.TaskService.CreateTaskForUser` | backend/task/service.py:56-57 | the new task is owned by the requester, is pending, carries the given title and description, and is the only row added |
| `TaskSvc.TaskService.UpdateTask` | backend/task/service.py:76-80 | `TaskNotFound` for a missing task, `TaskAccessForbidden` for a non-owner, else the repository's committed row; every failure leaves the store unchanged |
| `TaskSvc.TaskService.DeleteTask` | backend/task/service.py:93-96 | succeeds exactly for the owner and then removes that task and no other; `TaskNotFound` or `TaskAccessForbidden` otherwise, with nothing removed |
| `UserDto.ToDto` | backend/user/repository/user.py:31-34 | the public projection keeps id, username and email and has no password hash |
| `UserRepo.Project` | backend/user/repository/user.py:104 | the full row only when it is asked for, and otherwise the projection without the hash; the id is kept |
| `UserRepo.AtMostOneMatch` | backend/user/models/user.py:24-25 | with unique usernames and emails, at most one user satisfies a search that has a criterion |
| `UserRepo.FindById` | backend/security/dependencies.py:56 | a search by id alone finds the row stored under that id, or raises `UserNotFound` |
| `UserRepo.UserRepository.Create` | backend/user/repository/user.py:50-58 | a taken username or email raises `UserAlreadyExists` and rolls back; otherwise one new row under a fresh id, returned without its hash; usernames and emails stay unique |
| `UserRepo.UserRepository.Find` | backend/user/repository/user.py:93-104 | no criterion raises the value error; otherwise the user satisfying every given criterion, or `UserNotFound` exactly when none does |
| `UserSvc.UserService.CreateUser` | backend/user/service.py:30-37 | the stored row has a fresh id and the hash of the password, never the password; a conflict propagates with the store unchanged |
| `UserSvc.UserService.GetAllUsers` | backend/user/service.py:50-52 | `PaginationError` exactly when the limit or the offset is negative; otherwise the repository's page |
| `UserSvc.UserService.FindUser` | backend/user/service.py:58 | the repository's search answered with the public projection of the matching user, or the repository's error |
| `Decimal.Text` | backend/auth/service.py:43-44 | `str(n)`: a minus sign exactly when n is negative, then the decimal digits of its magnitude, without leading zeros |
| `Decimal.Trim` | backend/security/dependencies.py:54 | the text `int()` reads is the input from its first to its last character that `int()` does not skip, and it neither starts nor ends with such whitespace |
| `Decimal.TrimWithoutSeparators` | backend/security/dependencies.py:54 | on text without the information separators U+001C to U+001F, `int()` skips exactly the whitespace `str.strip()` removes |
| `Decimal.ParseInt` | backend/security/dependencies.py:54 | `int(s)`; an information separator U+001C to U+001F at either end is not skipped and makes it raise, so such a subject gives the 401 |
| `Decimal.ParseIntCharacters` | backend/security/dependencies.py:54 | text that `int()` accepts holds only digits, underscores, signs and the whitespace `int()` skips |
| `Decimal.ParseIntOfText` | backend/security/dependencies.py:54 | `int(str(n)) == n` for every integer |
| `Security.IssueTokens` | backend/auth/service.py:43-46 | both tokens carry the subject `str(id)` and the token type is "bearer" |
| `Security.IssuedSubjectNamesUser` | backend/auth/service.py:43-44 | the subject of either issued token reads back through `int()` as the user's id |
| `CurrentUser.GetCurrentUser` | backend/security/dependencies.py:43-59 | no payload, no subject, a subject that is not an integer, or no user with that id each give the one 401 credentials error; otherwise the user whose id is `int(sub)` |
| `CurrentUser.IssuedAccessTokenAuthenticates` | backend/security/dependencies.py:49-57 | the access token issued for a stored user authenticates as that user |
| `CurrentUser.RefreshTokenAlsoAuthenticates` | backend/security/service.py:105-110 | the refresh token is accepted wherever the access token is, since neither carries a type claim |
| `CurrentUser.DeletedUserIsRefused` | backend/security/dependencies.py:56-59 | both tokens of a user that is no longer stored give the credentials error |
| `AuthDto.EmailOk` | backend/auth/dto.py:19 | the model's approximation of the email type: an accepted address holds exactly one '@' and does not start with it |
| `AuthDto.FailingFields` | backend/auth/dto.py:13-24 | a field's name is listed exactly when that field fails, at most once each, in declaration order; the list is empty exactly when all pass |
| `AuthDto.ParseRegistration` | backend/auth/dto.py:13-24 | a registration body exactly when the username is 3 to 50 characters, the email is well formed and the password has at least 8 characters; otherwise the failing fields |
| `AuthDto.ParseLogin` | backend/auth/dto.py:34-35 | every pair of strings is a login body: no length or format constraint |
| `AuthSvc.AuthService.Register` | backend/auth/service.py:36-46 | a conflict propagates `UserAlreadyExists` with no token and no change; otherwise exactly one row is added and both tokens are issued for its id |
| `AuthSvc.AuthService.Login` | backend/auth/service.py:62-71 | `UserNotFound` exactly when no stored user has that username and password; otherwise the tokens of that user |
| `AuthSvc.AuthService.LoginAsWritten` | backend/auth/service.py:62-65 | never succeeds; for a stored username it fails reading the hash off the public projection |
| `AuthSvc.AuthService.WrongPasswordLooksLikeUnknownUser` | backend/auth/service.py:62-66 | a wrong password for a stored username gives the same `UserNotFound` as an unknown username |
| `AuthSvc.AuthService.LoginOfStoredUser` | backend/auth/service.py:62-71 | with a sound hasher, the password a user was stored with logs that user in |
| `AuthSvc.AuthService.LoginTokenAuthenticates` | backend/auth/service.py:68-71 | the access token a login returns authenticates as the user whose username was given |
| `Scenario.SignUpAlice` | tests/test_tasks.py:19-29 | in an empty store a user registers, logs in with the registered password and gets that user's tokens, and is refused with a wrong password |
| `Scenario.SignUp` | tests/test_tasks.py:19-29 | a second user registers too, under a different id |
| `Scenario.AliceAndBob` | tests/test_tasks.py:34-49 | the first user's new task is pending, titled as sent and owned by that user, and the second user's update of it is forbidden |

## Left out

- Password hashing (bcrypt) and JWT encoding, signing and expiry are not modelled. A hasher and a token codec are parameters, and their soundness is a predicate. `create_access_token` and `create_refresh_token` take the subject claim only; the expiry claim, the secret key and the clock are left out.
- Sessions, commits, `refresh` and `async` are replaced by in-memory maps. Ids come from a counter that is never reused, which stands in for the database's autoincrement.
- `get_all_for_user` issues a query with no ORDER BY, so the database's order is unspecified. The model lists tasks in ascending id order; `GetTasksForUser` keeps whatever order the repository gives.
- The `tasks` table's foreign key on `owner_id` and its cascade delete are not modelled. No modelled operation deletes users.
- Column length limits of the user table (`String(50)`, `String(255)`) are not checked on insert.
- `UserService.get_user_by_id`, `update_user` and `delete_user` are not modelled. They only pass their arguments to `repo.get`, `repo.update` and `repo.delete`, which the user repository does not define.
- `UserSvc.UserService.GetAllUsers` takes the repository's `get_list` as a parameter, because the user repository does not define it.
- `TaskService` has no `get_task_by_id_for_user`, although backend/task/router.py calls it. It is not invented here.
- The docstring of `prepare_field_value` promises a JSON fallback for other fields. The code returns their value unchanged, and the model follows the code.
- `UserDTO.model_validate` re-validates the username length and email format of a stored row. The model projects without re-validating.
- EmailStr normalisation is not modelled: the model keeps the address as sent, where the email type drops a display name, trims surrounding whitespace and lower-cases the domain before the address is stored.
- `AuthDto.EmailOk`: a syntactic approximation of the email type, stated on the address as sent. The email type also accepts the display-name form `Alice <alice@x.com>` (even with an '@' in a quoted name, `"a@b" <x@y.com>`) and surrounding spaces (` a@x.com`), and yields the bare normalised address, which is what the service stores; the model rejects those forms and stores the text unchanged. Its "exactly one '@'" is a property of the model's predicate, not of the email type.
- `AuthDto.ParseRegistration`: the email check is a syntactic approximation of the email type (no whitespace, one '@', a non-empty local part, a domain of at least two non-empty dot-separated labels), not the full validator.
- `Decimal.ParseInt`: reads ASCII digits only. Python's `int()` also accepts other Unicode decimal digits ("\u0665", ARABIC-INDIC DIGIT FIVE, reads as 5), which the model rejects. So `CurrentUser.GetCurrentUser` refuses such a subject with the 401, where the source would look up that id. The subjects this server issues are `str(id)` and always ASCII.
- `Decimal.ParseIntOfText`: Python limits `int()` and `str()` on integers to 4300 decimal digits by default (since 3.10.7 and 3.11); the model's conversions are unbounded, so the round trip is stated for every integer. Ids stay far below that limit.
- `UserCreate` and `UserUpdate` are imported from backend/user/dto.py by backend/auth/service.py:5 and backend/user/service.py:8-10, but that file defines only `UserDTO` and `UserFindDTO`. The model's `UserDto.UserCreate(username, email, password)` takes its fields from how it is built at backend/auth/service.py:36-40 and read at backend/user/service.py:30-35; `UserUpdate` is used only by the unmodelled `update_user`.
- `TaskDto.ToDto` can fail only on a row with an invalid title. Every row in a valid store has a valid title, so the service never reaches that failure.
- The HTTP layer (routers, exception handlers, status code mapping, the bearer scheme that extracts the token from the header) is not modelled; only the 401 error value of the current-user dependency is.
- Settings loading and database URL formatting are not modelled.

## Findings

| source | as written | input that shows it | evidently intended | confidence | as-written member | corrected member |
|---|---|---|---|---|---|---|
| backend/auth/service.py:62-65 | `login` searches through `find_user`, which returns the public projection `UserDTO`, then reads `hashed_password` from it; that attribute does not exist, so every login of a stored username raises `AttributeError` | a registered user `alice` logging in with the password used at registration | the search returns the full row (`return_model=True`), so the password is checked against the stored hash and the user's tokens are issued | not executed | `AuthSvc.AuthService.LoginAsWritten` | `AuthSvc.AuthService.Login` |
