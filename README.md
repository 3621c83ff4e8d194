# Task manager backend: users, authentication and tasks

This project models the core of a small FastAPI task-management service in Dafny and proves properties of that model.

Users register with a name, an optional e-mail and a password. The password is stored as a bcrypt hash; an empty password is replaced by a generated one. Users log in by name or e-mail, ignoring case and surrounding whitespace. A login issues an access token and a refresh token (JWTs) and stores the refresh token on the user row. A stored refresh token later buys a new access token. Every task endpoint authenticates the caller with `get_me`. The task endpoints list tasks by status, priority and creation time, search titles and descriptions for a substring, create a task owned by the caller, and patch a task.

How the model is built:

- **Tables.** A database table is a map from primary key to row. A row maps attribute names to values. A `Schema` carries each column's type, its NOT NULL and UNIQUE constraints, its Python-side default and its read-only attributes.
- **Commits.** A commit is a pure check: `DataError` for a badly typed value, `IntegrityError` for a NULL in a NOT NULL column, a used key or a UNIQUE clash. The shared `BaseRepository` operations (`id`, `all`, `create`, `delete`, `update`, `get_by_filters`) are methods of the class `BaseRepository.Table`. Each is proved against a specification function (`CreateSpec`, `UpdateSpec`, `Select`). The `handle_db_errors` decorator's rollback is counted on a `Session` object.
- **Well-formedness.** Every row fits its schema, is stored under its own id, and clashes with no other row on a UNIQUE column. Every state-changing operation is proved to keep this invariant.
- **Services.** The users and tasks services are classes over a `Table`. Their pure logic (login, refresh, registration, task update) is stated as functions with lemmas about them.
- **Routers.** The routers are functions from the caller's authentication outcome (`me`, the result of `get_me`) and the table contents to a response and the new table contents.
- **JWT.** `jose.jwt` is modelled as signed claim maps. A token decodes only under its own key and algorithm. `jwt.decode` reads the clock in whole seconds and treats a token as expired only once `exp` is strictly in the past.
- **Passwords.** bcrypt is modelled as a salt-prefixed, injective digest.
- **Parameters.** The clock (`now` in whole UTC seconds, plus the microseconds `datetime.utcnow()` carries), the host's UTC offset, the random draws of `password_generator`, the bcrypt salt and the settings (`AuthConfig`) are all parameters.

Consequences of the source that the model makes explicit:

- **Tasks without a description.** `CreateTask` makes `description` optional, but the `tasks.description` column is NOT NULL. A task created without a description therefore fails at commit with `IntegrityError`, and the router answers the plain 500 described under **Error details** (`TasksRouter.CreateTasksWithoutDescription`). The sequence value drawn for it is not given back.
- **Users without an e-mail.** `UserCreate.email` is optional, but `users.email` is NOT NULL. Registration without an e-mail fails the same way (`UsersService.RegisterWithoutEmail`).
- **Error details.** The tasks router's `except Exception` turns every failure into `HTTPException(status_code=500, detail=e)`, with the exception object itself as the detail. FastAPI cannot render that detail as JSON. Rendering the error raises, and Starlette's outermost middleware answers a plain-text 500 `Internal Server Error` instead. Every failure of a task handler therefore gets the same answer, and the cause reaches only the log (`TasksRouter.ServerError`). A missing task answers this 500, not 404 (`TasksRouter.UpdateTaskMissing`).
- **Deactivated users.** `get_me` raises a 401 for a deactivated user inside a `try` whose `except Exception` turns it into a 500 (`Auth.DeactivatedOrMissingUserIsServerError`).
- **The second expiry check.** `get_me` checks `exp` a second time against `datetime.utcnow()` read as local time, including its microseconds. The check is redundant on hosts at least one second east of UTC (`Auth.HostClockRedundantEastOfUtc`). At UTC it refuses a token during the second after `exp`, which `jwt.decode` still accepts (`Auth.HostClockRejectsAtUtc`). West of UTC it refuses tokens that are still valid (`Auth.HostClockRejectsWestOfUtc`).
- **Updating `id`.** An update item that sets `id` is assigned like any other attribute, so the commit moves the row to the new primary key (`BaseRepository.UpdateReplacesRow`).

## Model

| member | source | states |
|---|---|---|
| Records.Lookup | Shared/Base/BaseRepository.py:39-40 | a keyword argument is absent exactly when no item carries the key; otherwise the value found is one written under that key |
| Records.LookupAppend | Services/Tasks/router.py:55 | in `{**a, **b}` a key of `b` overrides the same key of `a`; other keys keep `a`'s value |
| Records.ClashSymmetric | Services/Users/model.py:12-13 | a UNIQUE clash between two rows is symmetric |
| Records.StoredUnderOwnId | Shared/Base/BaseModel.py:7 | every row of a well-formed table fits its schema and is stored under its own primary key |
| Records.UniqueColumn | Services/Users/model.py:12-13 | in a well-formed table two different rows never share a value of a NOT NULL UNIQUE column |
| Errors.Raise | Shared/CustomError/custom_error.py:6-38 | constructing a custom exception keeps its kind and takes the given message, or the class's own default message when none is given |
| Errors.Str | Shared/CustomError/custom_error.py:10-11 | `str(e)` is the prefix `CustomException: ` followed by exactly the message |
| Errors.StrDeterminesMessage | Shared/CustomError/custom_error.py:10-11 | two custom exceptions print the same exactly when their messages are equal |
| Errors.SubclassesAreCustom | Shared/CustomError/custom_error.py:14-38 | every subclass is a `CustomException` and never a `SQLAlchemyError` |
| Errors.DefaultMessagesDistinct | Shared/CustomError/custom_error.py:6-38 | different exception classes have different default messages |
| DbErrors.HandleDbErrors | Shared/Utils/Handle_db_errors.py:8-25 | the wrapped call's result or exception passes through unchanged; a rollback happens exactly for a `SQLAlchemyError` |
| DbErrors.NeverSwallows | Shared/Utils/Handle_db_errors.py:16-23 | the decorator fails exactly when the call failed, with the same exception |
| DbErrors.Finish | Shared/Utils/Handle_db_errors.py:14-23 | returns the call's outcome and rolls the session back once for a database error, never otherwise |
| DbErrors.Session.Rollback | Shared/Utils/Handle_db_errors.py:18-19 | a rollback is counted and leaves the session open |
| DbErrors.Session.Close | Shared/Auth/auth.py:91-92 | closing the session marks it closed and rolls nothing back |
| Jose.Decode | Shared/Auth/auth.py:69-76 | a token decodes only under its own key and algorithm, to its own claims with an unexpired integer `exp`; it is expired exactly when it verifies and `exp` is in the past |
| Jose.Encode | Shared/Auth/auth.py:29 | the token carries exactly the given claims, signed with the given key and algorithm |
| Jose.EncodeDecode | Shared/Auth/auth.py:29 | decoding an encoded token returns its claims until `exp` and reports expiry after it |
| Jose.ForeignKeyRejected | Shared/Auth/auth.py:69 | a token signed with another key is invalid |
| Auth.CreateAccessToken | Shared/Auth/auth.py:19-36 | the token carries the data's claims plus `exp`, is signed with the configured key and algorithm, and fails with `ValueError` exactly when no non-zero delta is given and the configured minutes are not an integer |
| Auth.Expiry | Shared/Auth/auth.py:24-27 | a non-zero `expires_delta` is added to now; otherwise the configured minutes are used, and only a setting that does not convert with `int()` raises `ValueError` |
| Auth.ExpiryRule | Shared/Auth/auth.py:24-27 | a non-zero delta is added to now; a zero or missing delta uses the configured minutes times 60 |
| Auth.CreateRefreshToken | Shared/Auth/auth.py:39-40 | a refresh token always issues and expires seven days after now |
| Auth.IssuedTokenLifetime | Shared/Auth/auth.py:24-29 | an issued access token decodes to its claims up to its expiry and is reported expired after it |
| Auth.PasswordGenerator | Shared/Auth/auth.py:43-50 | a generated password has 8 to 12 characters, all letters, digits or `!@#$%^&*()` |
| Auth.PasswordGeneratorReaches | Shared/Auth/auth.py:47-49 | every such string is generated by some draw |
| Auth.HashPassword | Shared/Auth/auth.py:53-59 | a non-empty password verifies against its hash; an empty one is replaced by the generated password, which verifies while the empty one does not; the hash never equals the password |
| Auth.LoadUser | Shared/Auth/auth.py:82-90 | the user loads exactly when `user_id` converts to the id of a stored user who is not deactivated; every other case is the 500 `unexpected` |
| Auth.UserIdOf | Shared/Auth/auth.py:82-84 | a missing `user_id` converts to nothing; a numeric claim is taken as is, and a claim written by `str(n)` converts back to `n` |
| Auth.CheckToken | Shared/Auth/auth.py:65-80 | the checks pass exactly when the token is not empty, `jwt.decode` accepts it and the host-clock check does not refuse its payload; a passed token decodes to that payload; every rejection is a 401 |
| Auth.HostClockRejects | Shared/Auth/auth.py:78-80 | the second check refuses only a non-zero `exp` at or before the host's wall-clock second, and refuses every non-zero `exp` strictly before it |
| Auth.Authenticate | Shared/Auth/auth.py:62-92 | success means the token passed both expiry checks and the user returned is the stored, not-deactivated user its `user_id` names; a rejected token gives its 401 unchanged; every failure is a 401 or a 500 |
| Auth.GetMe | Shared/Auth/auth.py:62-92 | returns the authentication outcome for the clock with its microseconds, closes the session whenever the `try` block is reached, and never rolls back |
| Auth.ValidTokenAuthenticates | Shared/Auth/auth.py:62-87 | a token signed with the configured key, naming an active user, whose `exp` is neither before `now` nor before the host clock read with its microseconds, authenticates that user |
| Auth.EmptyTokenRefused | Shared/Auth/auth.py:65-67 | an empty token is refused with 401 `Token not provided` |
| Auth.DecodeFailures | Shared/Auth/auth.py:68-76 | an expired token gives 401 `Token has expired`; any other decode failure gives 401 `Invalid token: ` followed by the reason |
| Auth.DeactivatedOrMissingUserIsServerError | Shared/Auth/auth.py:82-90 | after the token checks pass, a missing or deactivated user ends in 500 `unexpected` |
| Auth.HostClockRedundantEastOfUtc | Shared/Auth/auth.py:78-80 | on a host at least one second east of UTC the second expiry check never rejects a token that decoded |
| Auth.HostClockRejectsAtUtc | Shared/Auth/auth.py:78-80 | at UTC a token whose `exp` is the current whole second decodes, yet any later microsecond gets 401 `Token expired` |
| Auth.HostClockRejectsWestOfUtc | Shared/Auth/auth.py:78-80 | west of UTC a token within its lifetime but within the offset of expiry decodes and is still refused with 401 `Token expired` |
| Text.Strip | Services/Users/repository.py:15 | `strip()` is no longer than its input and leaves no whitespace at either end |
| Text.StripIdempotent | Services/Users/repository.py:15 | stripping twice is stripping once |
| Text.Lower | Services/Users/repository.py:15 | lower-casing keeps the length and maps each character by the lower-case mapping |
| Text.LowerIdempotent | Services/Users/repository.py:15 | lower-casing twice is lower-casing once |
| Text.LowerContains | Services/Tasks/repository.py:19-22 | an occurrence of a term survives lower-casing both sides |
| Text.ContainsTransitive | Services/Tasks/repository.py:20-21 | a substring of a substring is a substring |
| Text.ParseInt | Services/Tasks/serivce.py:33 | `int(s)` succeeds only on a string with something left after stripping |
| Text.IntToString | Services/Users/serivce.py:43 | `str(n)` is non-empty, ends in a digit and starts with `-` exactly for a negative number |
| Text.IntToStringRoundTrip | Services/Users/serivce.py:65 | `int(str(n)) == n` for every integer |
| Text.IntToStringInjective | Services/Users/serivce.py:65 | different ids print differently |
| BaseRepository.CommitCheck | Shared/Base/BaseRepository.py:41-42 | the commit succeeds exactly when the row fits, its key is free and it clashes with no row; it raises `DataError` exactly when some value has the wrong type |
| BaseRepository.CommitKeepsWellFormed | Shared/Base/BaseRepository.py:41-42 | storing an accepted row under its id keeps the table well-formed |
| BaseRepository.Construct | Shared/Base/BaseRepository.py:40 | the constructed instance holds exactly the model's columns |
| BaseRepository.InitialValue | Shared/Base/BaseRepository.py:40 | a non-`None` keyword argument is the column's value; a column neither given nor defaulted is NULL exactly when it is not one of the two timestamps |
| BaseRepository.CreateSpec | Shared/Base/BaseRepository.py:38-44 | a failed `create` changes no row; the sequence advances by at most one; an unknown keyword raises `TypeError` and touches neither the rows nor the sequence |
| BaseRepository.Inserted | Shared/Base/BaseRepository.py:40-43 | the inserted row has every column; each takes the given non-`None` value, else its default, else the timestamp for `created_at`/`updated_at`; the id comes from the sequence when none is given |
| BaseRepository.CreateAddsOneRow | Shared/Base/BaseRepository.py:38-44 | `create` keeps the table well-formed; failure changes no row; success adds exactly one row under a fresh key |
| BaseRepository.CreatedRowGiven | Shared/Base/BaseRepository.py:40 | a created row holds every non-`None` keyword argument as given, and the argument names a column |
| BaseRepository.CreatedKey | Shared/Base/BaseRepository.py:38-44 | a `create` that goes through stores its row under a key no row had, and changes nothing else |
| BaseRepository.CreatedRowDefault | Shared/Base/BaseRepository.py:40-43 | a column not given takes its default, the creation time for the timestamps, or `None` |
| BaseRepository.InsertedGiven | Shared/Base/BaseRepository.py:39 | a column given a non-`None` value holds that value in the row the INSERT tries |
| BaseRepository.InsertedId | Shared/Base/BaseRepository.py:39-41 | without an id given, the row the INSERT tries takes the next id of the sequence |
| BaseRepository.CreatedRowId | Shared/Base/BaseRepository.py:40-43 | without a given id the created row's id is the next sequence value, which advances |
| BaseRepository.CreatedRowInserted | Shared/Base/BaseRepository.py:38-44 | a successful create has no unknown keyword and returns exactly the inserted row, which fits the schema |
| BaseRepository.InsertedTyped | Shared/Base/BaseRepository.py:40 | typed keyword arguments give a typed row |
| BaseRepository.CreateCommits | Shared/Base/BaseRepository.py:38-44 | typed arguments that fill every NOT NULL column and clash with nothing are stored under the next id, which advances |
| BaseRepository.CreateIntegrityError | Shared/Base/BaseRepository.py:41-42 | a NULL in a NOT NULL column or a UNIQUE clash raises `IntegrityError`, changes no row, and still uses up a drawn id |
| BaseRepository.CreateUnknownKey | Shared/Base/BaseRepository.py:40 | a keyword that is not a column raises `TypeError`, exactly then, before the database is touched |
| BaseRepository.StripTz | Shared/Base/BaseRepository.py:69-70 | a datetime loses its time zone and keeps its wall-clock seconds; other values are unchanged |
| BaseRepository.ApplyItem | Shared/Base/BaseRepository.py:63-78 | one step raises `ValueError` exactly for a non-`None` item that is not a column, and then changes nothing; otherwise at most the named attribute changes |
| BaseRepository.ApplyItems | Shared/Base/BaseRepository.py:63-78 | the assignment loop only adds columns of the model |
| BaseRepository.StoppedStays | Shared/Base/BaseRepository.py:76-78 | once the loop has raised `ValueError`, later items change nothing |
| BaseRepository.AppliedFields | Shared/Base/BaseRepository.py:63-75 | when the loop completes, each attribute holds the last value assigned to it, or its old value |
| BaseRepository.StoppedIff | Shared/Base/BaseRepository.py:63-78 | the loop raises `ValueError` exactly when some non-`None` item names no column |
| BaseRepository.StoppedAtFirstUnknown | Shared/Base/BaseRepository.py:76-78 | it raises at the first such item, with the items before it applied |
| BaseRepository.NullItemsIgnored | Shared/Base/BaseRepository.py:64-65 | items whose value is `None` make no difference |
| BaseRepository.StampAndCommitReplaces | Shared/Base/BaseRepository.py:80-82 | stamping and committing keeps the table well-formed; failure changes nothing; success stamps `updated_at` and replaces the one row |
| BaseRepository.StampAndCommit | Shared/Base/BaseRepository.py:80-82 | the instance is stamped with the update time; a failed commit raises a database error and stores nothing; a successful one returns the stamped instance, stored under its id in place of the loaded row |
| BaseRepository.UpdateSpec | Shared/Base/BaseRepository.py:57-82 | `update` raises `ValueError` exactly when the assignment loop stops; any failure stores nothing; a success returns the instance stamped with the update time |
| BaseRepository.UpdateReplacesRow | Shared/Base/BaseRepository.py:57-82 | `update` keeps the table well-formed; failure changes no row; success replaces only the updated row, stamped with the update time |
| BaseRepository.AppliedKeepsFit | Shared/Base/BaseRepository.py:63-75 | typed items keep the instance fitting its schema, and keep its id when no item sets it |
| BaseRepository.UpdateCommits | Shared/Base/BaseRepository.py:57-82 | a loop that completes with a fitting row that keeps its id commits: the stamped row is returned and stored in place |
| BaseRepository.AssignedRowFits | Shared/Base/BaseRepository.py:72-80 | assigning one typed non-id attribute and stamping keeps the row fitting and its id |
| BaseRepository.AssignOneCommits | Shared/Base/BaseRepository.py:57-82 | an update of one typed, writable, non-unique attribute always commits in place |
| BaseRepository.AssignItems | Shared/Base/BaseRepository.py:63-78 | the imperative loop computes exactly the assignment loop's outcome |
| BaseRepository.ConditionsMeaning | Shared/Base/BaseRepository.py:89-92 | the conditions the filter loop adds hold exactly when the row equals every non-`None` filter value |
| BaseRepository.Select | Shared/Base/BaseRepository.py:85-98 | the selection holds exactly the stored rows that equal every non-`None` filter value and were created no earlier than `created_after`, unchanged |
| BaseRepository.SelectUnfiltered | Shared/Base/BaseRepository.py:85-98 | with no `created_after` and only `None` filter values every row is returned |
| BaseRepository.SelectNarrows | Shared/Base/BaseRepository.py:89-92 | adding a filter never adds rows |
| BaseRepository.Table.constructor | Shared/Base/BaseRepository.py:19-20 | a repository starts on an empty, well-formed table whose sequence starts at 1 |
| BaseRepository.Table.Id | Shared/Base/BaseRepository.py:23-28 | returns the row under the key exactly when it exists, else `NotFoundInDBError` |
| BaseRepository.Table.All | Shared/Base/BaseRepository.py:31-35 | returns every row, which is the unfiltered selection |
| BaseRepository.Table.Create | Shared/Base/BaseRepository.py:38-44 | the new table, sequence and result are those of `CreateSpec`; the table stays well-formed; a database error rolls back once |
| BaseRepository.Table.Delete | Shared/Base/BaseRepository.py:47-54 | removes exactly the row under the key and returns 200, or raises `NotFoundInDBError` and changes nothing |
| BaseRepository.Table.Update | Shared/Base/BaseRepository.py:57-82 | the new table, instance and result are those of `UpdateSpec`; the table stays well-formed; a database error rolls back once |
| BaseRepository.Table.GetByFilters | Shared/Base/BaseRepository.py:85-98 | the query built by the loop returns exactly the rows that `Select` describes |
| UserModel.UsersSchemaExtendsBase | Services/Users/model.py:9-16 | the users table has the base columns and a consistent schema |
| UserModel.NamesAndEmailsUnique | Services/Users/model.py:12-13 | no two stored users share a name or an e-mail |
| UserModel.StoredUser | Services/Users/model.py:12-16 | a stored user has a name, an e-mail, a password and an activity flag, and a token or none |
| UserModel.HashPassword | Services/Users/model.py:26-28 | a hash starts with the bcrypt version and cost prefix and is at least header-long |
| UserModel.VerifyPassword | Services/Users/model.py:21-23 | checking against a string that is not a bcrypt hash raises `ValueError`, and against a hash gives an answer; `UserModel.VerifyOwnHash` and `UserModel.VerifyOtherPassword` state which |
| UserModel.VerifyOwnHash | Services/Users/model.py:21-28 | a password verifies against its own hash whatever the salt |
| UserModel.VerifyOtherPassword | Services/Users/model.py:21-23 | a different password does not verify |
| UserModel.HashIsNotPlaintext | Services/Users/model.py:26-28 | the stored hash never equals the password |
| UserModel.DeleteUser | Services/Users/model.py:18 | deleting a user removes that user and exactly the tasks they own; every other user and every remaining task is unchanged |
| UserModel.DeleteUserKeepsOwners | Services/Users/model.py:18 | after the cascade every remaining task still has an existing owner |
| UserSchema.EmailToLower | Services/Users/schema.py:11-15 | `None` stays `None`; an e-mail is lower-cased character by character |
| UserSchema.EmailToLowerIdempotent | Services/Users/schema.py:11-15 | validating twice is validating once |
| UserSchema.NewUserCreate | Services/Users/schema.py:6-15 | the name and password are kept and the e-mail is validated |
| UserSchema.LowerEmailUnchanged | Services/Users/schema.py:11-15 | an e-mail already in lower case is kept as it is |
| UsersRepository.FirstWhere | Services/Users/repository.py:15-17 | `first()` finds nothing exactly when no row matches, else the matching row with the lowest id |
| UsersRepository.LoginKey | Services/Users/repository.py:15 | the normalised login is no longer than the login and is its own normalised form |
| UsersRepository.GetUserByLogin | Services/Users/repository.py:14-24 | nothing is found exactly when neither a name nor an e-mail matches the login; a name match wins over an e-mail match |
| UsersRepository.SameKeySameUser | Services/Users/repository.py:14-24 | two logins with the same stripped, lower-cased key find the same user |
| UsersRepository.LoginIgnoresCase | Services/Users/repository.py:15 | the lookup ignores the login's case |
| UsersRepository.LoginIgnoresSpaces | Services/Users/repository.py:15 | the lookup ignores whitespace around the login |
| UsersRepository.LowerStrip | Services/Users/repository.py:15 | lower-casing before or after stripping gives the same key |
| UsersRepository.GetUserByRefreshToken | Services/Users/repository.py:27-33 | finds a stored user holding that token, or raises `NotFoundInDBError` exactly when nobody holds it |
| UsersRepository.NullTokenFindsUserWithoutToken | Services/Users/repository.py:28 | with no token the query finds a user who never logged in, whenever one exists |
| UsersService.UserClaims | Services/Users/serivce.py:65-66 | the claims are exactly `user_id` as the printed id and `name` |
| UsersService.ClaimsNameUser | Services/Users/serivce.py:65-66 | `int(payload['user_id'])` gives back the user's id |
| UsersService.UserClaimsInjective | Services/Users/serivce.py:65-66 | equal `user_id` claims mean the same user |
| UsersService.Issued | Shared/Auth/auth.py:28-29 | an issued token carries the claims plus the given `exp` |
| UsersService.IssuedAccess | Services/Users/serivce.py:68 | the access token expires the configured number of minutes after now |
| UsersService.IssuedRefresh | Services/Users/serivce.py:69 | the refresh token expires seven days after now |
| UsersService.Refreshed | Services/Users/serivce.py:71 | the user row after login holds the new refresh token and the update time, with every other attribute kept |
| UsersService.RefreshedKeepsClaims | Services/Users/serivce.py:71 | storing the token does not change the user's claims |
| UsersService.StoreRefreshToken | Services/Users/serivce.py:71 | the update commits, returns the refreshed row, stores it in place and keeps the users table well-formed |
| UsersService.RefreshSpec | Services/Users/serivce.py:35-48 | a token nobody holds raises the lookup's error; a success found the holder and returns a bearer token signed with the configured key |
| UsersService.IssueTokens | Services/Users/serivce.py:65-73 | both tokens are bearer, expiring and bound to the user's id; a failure changes no row |
| UsersService.LoginSpec | Services/Users/serivce.py:51-73 | a successful login returns expiring tokens; a failed one changes no row |
| UsersService.LoginUnknownUser | Services/Users/serivce.py:56-60 | a login that matches no name or e-mail raises `NotFoundInDBError` and changes nothing |
| UsersService.LoginWrongPassword | Services/Users/serivce.py:61-63 | a password other than the registered one raises `NotValidPassword` and changes nothing |
| UsersService.IssueTokensCommits | Services/Users/serivce.py:65-73 | with valid settings, login returns the two tokens and stores the refresh token on the user |
| UsersService.LoginMatched | Services/Users/serivce.py:56-73 | a found user with a verifying password gets tokens issued |
| UsersService.LoginOkMatched | Services/Users/serivce.py:56-63 | a successful login found a user whose password verifies |
| UsersService.LoginSucceeds | Services/Users/serivce.py:51-73 | the right credentials return the access and refresh tokens and store the refresh token on that user |
| UsersService.BoundTokenHolder | Services/Users/serivce.py:65-71 | a token bound to a user can be held by no other user |
| UsersService.IssuedRefreshBound | Services/Users/serivce.py:65-69 | the issued refresh token names its user |
| UsersService.StoreBoundToken | Services/Users/serivce.py:71 | storing a token bound to its holder keeps every stored token bound to its holder |
| UsersService.IssueKeepsTokensBound | Services/Users/serivce.py:65-73 | issuing tokens keeps the table well-formed and every stored token bound to its holder |
| UsersService.LoginKeepsTokensBound | Services/Users/serivce.py:51-73 | login keeps the table well-formed and every stored token bound to its holder |
| UsersService.RefreshFindsHolder | Services/Users/serivce.py:41 | a bound token finds exactly its holder |
| UsersService.RefreshAfterIssue | Services/Users/serivce.py:35-46 | the refresh token just issued buys a new access token for the same user |
| UsersService.RefreshAfterLogin | Services/Users/serivce.py:35-73 | after login, the refresh token returned buys a new bearer access token with the user's claims |
| UsersService.BoundTokenGone | Services/Users/serivce.py:41 | a token bound to one user that this user no longer holds is held by nobody |
| UsersService.UnheldTokenNotFound | Services/Users/serivce.py:40-48 | a refresh token nobody holds is refused with `NotFoundInDBError` |
| UsersService.OldTokenRejectedAfterIssue | Services/Users/serivce.py:41 | a replaced refresh token is refused with `NotFoundInDBError` |
| UsersService.OldTokenRejectedAfterLogin | Services/Users/serivce.py:35-73 | after a new login the previous refresh token is refused |
| UsersService.IssuedNamesUser | Services/Users/serivce.py:65-66 | the `user_id` of an issued token converts back to the user's id |
| UsersService.ClaimsTokenAuthenticates | Services/Users/serivce.py:65-68 | a token with the user's claims authenticates that active user while `exp` is neither before the request's `now` nor before the host clock read with its microseconds |
| UsersService.IssuedTokenAuthenticates | Services/Users/serivce.py:65-73 | the access token just issued authenticates the user while neither expiry check has passed its `exp` |
| UsersService.LoginTokenAuthenticates | Services/Users/serivce.py:51-73 | the access token from login authenticates the active user while neither expiry check has passed its `exp` |
| UsersService.UserData | Services/Users/serivce.py:26-32 | the create arguments are the name, the e-mail or `None`, and the hash, and nothing else |
| UsersService.CreateUserSpec | Services/Users/serivce.py:26-32 | a failed registration changes no user; the sequence advances by at most one |
| UsersService.RegisteredUser | Services/Users/serivce.py:26-32 | a registered user keeps the name and stores a hash, never the password, that the password verifies against |
| UsersService.RegisteredUserDefaults | Services/Users/serivce.py:26-32 | a registered user takes the next id of the sequence, is active and holds no refresh token |
| UsersService.RegistrationRowGiven | Services/Users/serivce.py:31-32 | the inserted row holds the name, the e-mail or `None`, the hash and the next id |
| UsersService.RegistrationRowTyped | Services/Users/serivce.py:31-32 | the inserted row is typed |
| UsersService.RegisterTakenName | Services/Users/serivce.py:26-32 | registering a taken name fails with `IntegrityError`, changes no user and uses up an id |
| UsersService.RegisterWithoutEmail | Services/Users/serivce.py:26-32 | registering without an e-mail fails with `IntegrityError` against the NOT NULL column |
| UsersService.CreateKeepsTokensBound | Shared/Base/BaseRepository.py:38-44 | a `create` that gives no refresh token, into a table where that column has no default, keeps every stored token bound to its holder |
| UsersService.RegisterKeepsTokensBound | Services/Users/serivce.py:26-32 | registration keeps the table well-formed and every stored token bound to its holder |
| UsersService.UsersService.constructor | Services/Users/serivce.py:14-15 | the service wraps a well-formed users repository |
| UsersService.UsersService.GetAllUsers | Services/Users/serivce.py:18-22 | returns every user |
| UsersService.UsersService.CreateUser | Services/Users/serivce.py:26-32 | the users table, sequence and result are those of the registration specification |
| UsersService.UsersService.Refresh | Services/Users/serivce.py:35-48 | returns the refresh specification's outcome and changes nothing |
| UsersService.UsersService.Login | Services/Users/serivce.py:51-73 | the users table and result are those of `LoginSpec`; the sequence is untouched |
| TaskSchema.ParseStatus | Services/Tasks/schema.py:7-9 | a parsed status has the given value |
| TaskSchema.StatusValues | Services/Tasks/schema.py:7-9 | each status parses back from its value; exactly `pending` and `done` parse |
| TaskSchema.PriorityValue | Services/Tasks/schema.py:12-17 | a priority's value is between 1 and 5 |
| TaskSchema.ParsePriority | Services/Tasks/schema.py:12-17 | a parsed priority has the given value |
| TaskSchema.PriorityValues | Services/Tasks/schema.py:12-17 | each priority parses back from its value; exactly 1 to 5 parse |
| TaskSchema.PriorityIncreasing | Services/Tasks/schema.py:12-17 | values increase strictly in declaration order |
| TaskSchema.NewCreateTask | Services/Tasks/schema.py:20-24 | a task body defaults to no description, `pending` and `medium` |
| TaskSchema.CreateTaskDict | Services/Tasks/schema.py:20-24 | `task.__dict__` has the four fields in order, as column values |
| TaskSchema.TaskUpdateDict | Services/Tasks/schema.py:27-31 | `update_data.__dict__` has the four fields in order, `None` where not given |
| TaskSchema.EmptyUpdateAllNone | Services/Tasks/schema.py:27-31 | an empty update carries only `None` |
| TaskModel.TasksSchemaExtendsBase | Services/Tasks/model.py:8-19 | the tasks table has the base columns and a consistent schema |
| TaskModel.EnumColumns | Services/Tasks/model.py:15-16 | the status and priority columns accept exactly the enum members' values |
| TaskModel.StoredTask | Services/Tasks/model.py:12-19 | a stored task has an owner name, a description, an owner id, a status and a priority |
| TasksRepository.SearchTasks | Services/Tasks/repository.py:15-27 | returns exactly the tasks whose lower-cased title or description contains the lower-cased term |
| TasksRepository.SearchMatch | Services/Tasks/repository.py:19-22 | a task matches only when its title or its description is a string; the case-insensitive substring test itself is stated through `TasksRepository.SearchTasks` and the lemmas after it |
| TasksRepository.SearchIgnoresCase | Services/Tasks/repository.py:20-21 | the search ignores the term's case |
| TasksRepository.EmptyTermFindsAll | Services/Tasks/repository.py:19-22 | the empty term finds every task with a title |
| TasksRepository.SubstringFindsMore | Services/Tasks/repository.py:19-22 | a shorter term contained in a longer one finds at least as much |
| TasksRepository.SearchExample | tests/test_tasks.py:198-215 | `tes` finds the task titled `test` and not one titled `other` |
| TasksService.UpdateTaskSpec | Services/Tasks/serivce.py:31-35 | a non-integer id raises `ValueError` and a missing task `NotFoundInDBError`; both change nothing; success needs a stored task and keeps the number of tasks |
| TasksService.Patched | Services/Tasks/serivce.py:31-35 | each given field is replaced and every other attribute kept |
| TasksService.ApplyUpdateFields | Shared/Base/BaseRepository.py:63-75 | over any table where the four fields are writable columns, the assignment loop puts in place exactly the fields a `TaskUpdate` gives |
| TasksService.ApplyTaskUpdate | Shared/Base/BaseRepository.py:63-75 | the assignment loop over a `TaskUpdate` completes with the patched task |
| TasksService.TaskUpdateTyped | Services/Tasks/schema.py:27-31 | an update's values fit their columns and never set the id |
| TasksService.PatchedFits | Services/Tasks/serivce.py:31-35 | a patched task fits the table and keeps its id |
| TasksService.UpdatePatched | Services/Tasks/serivce.py:31-35 | the repository update of a stored task always commits the patched, stamped task in place |
| TasksService.UpdateTaskApplies | Services/Tasks/serivce.py:31-35 | updating a stored task returns the patched task, stamped and under the same id, and stores it in place |
| TasksService.UpdateTaskFails | Services/Tasks/serivce.py:33 | an id that is not an integer or names no task fails and changes nothing |
| TasksService.TasksService.constructor | Services/Tasks/serivce.py:12-13 | the service wraps a well-formed tasks repository |
| TasksService.TasksService.GetByFilters | Services/Tasks/serivce.py:16-18 | returns the repository's filtered selection |
| TasksService.TasksService.SearchTasks | Services/Tasks/serivce.py:21-23 | returns the repository's search |
| TasksService.TasksService.CreateTask | Services/Tasks/serivce.py:26-28 | the tasks table, sequence and result are those of the repository's create |
| TasksService.TasksService.UpdateTask | Services/Tasks/serivce.py:31-35 | the tasks table and result are those of `UpdateTaskSpec`; the sequence is untouched |
| Responses.Plain | Services/Tasks/router.py:32 | a plain response carries the status and body, no cookie and no header |
| Responses.Describe | Services/Users/auth_router.py:55-57 | `str(e)` in the `Unexpected error: ` detail: a custom exception prints through its `__str__`, an HTTP exception as its status, `: ` and its detail, a built-in exception as its class name |
| Responses.StatusOf | Services/Users/auth_router.py:16-21 | an HTTP exception answers with its status; any other uncaught exception answers 500 |
| AuthRouter.UserReadOf | Services/Users/auth_router.py:16 | the response model validates exactly a row with a name, an e-mail or `None`, and an activity flag, and copies those three |
| AuthRouter.UserReadIgnoresSecrets | Services/Users/schema.py:18-21 | the response never depends on the password or the refresh token |
| AuthRouter.RegisterResponse | Services/Users/auth_router.py:16-21 | a failure passes through; success is a 201 carrying the validated user |
| AuthRouter.RegisteredWithEmail | Services/Users/model.py:13 | a successful registration had an e-mail and stores the name and that e-mail |
| AuthRouter.RegisteredActive | Services/Users/model.py:15 | a registered user is active |
| AuthRouter.RegisterResponds | Services/Users/auth_router.py:16-21 | a successful registration answers 201 with the name, the e-mail and `active` true |
| AuthRouter.RegisterTakenNameResponds | Services/Users/auth_router.py:16-21 | a taken name ends in an uncaught `IntegrityError`, that is a 500 |
| AuthRouter.LoginError | Services/Users/auth_router.py:51-57 | a missing user is a 404 and a wrong password a 400, each exactly then and with its fixed detail; anything else is a 500 with `Unexpected error: ` and the description |
| AuthRouter.LoginResponse | Services/Users/auth_router.py:39-57 | success answers 200 with the token dictionary; failure maps through the login errors |
| AuthRouter.LoginUnknownUserResponds | Services/Users/auth_router.py:51-52 | an unknown login answers 404 `Пользователь не найден` |
| AuthRouter.LoginWrongPasswordResponds | Services/Users/auth_router.py:53-54 | a wrong password answers 400 `Неверный пароль` |
| AuthRouter.LoginSetsCookies | Services/Users/auth_router.py:42-46 | login sets the refresh cookie to the stored token and the access cookie and bearer header to the returned access token |
| AuthRouter.TokenParam | Services/Users/auth_router.py:25 | the query parameter is `None` exactly when it is absent |
| AuthRouter.RefreshResponse | Services/Users/auth_router.py:24-35 | an unauthenticated caller gets the authentication error; `NotFoundInDBError` becomes a 404; other errors pass through; success answers 200 with the access info |
| AuthRouter.RefreshAfterLoginResponds | Services/Users/auth_router.py:24-35 | after login, refreshing with the returned tokens, while neither expiry check has passed the access token's `exp`, answers 200 with a new access token in the body, the cookie and the header |
| AuthRouter.StaleTokenResponds | Services/Users/auth_router.py:34-35 | a replaced refresh token answers 404 |
| AuthRouter.RefreshNeedsCaller | Services/Users/auth_router.py:25 | without a valid bearer token refresh answers 401 or 500 |
| TasksRouter.ServerError | Services/Tasks/router.py:33-35 | every caught exception ends in the same plain-text 500 `Internal Server Error`, whatever the exception was |
| TasksRouter.FiltersOf | Services/Tasks/router.py:24-27 | the filters are status then priority, `None` where not given |
| TasksRouter.TasksByFilter | Services/Tasks/router.py:14-35 | an unauthenticated caller gets the authentication error; otherwise 200 with stored tasks only |
| TasksRouter.TasksByFilterMeaning | Services/Tasks/router.py:24-29 | a task is listed exactly when it matches each given status, priority and creation bound |
| TasksRouter.NoFiltersListAll | Services/Tasks/router.py:23-32 | with no filter every task is listed |
| TasksRouter.SearchTasks | Services/Tasks/router.py:38-49 | an unauthenticated caller gets the authentication error; otherwise 200 with exactly the matching tasks |
| TasksRouter.OwnerFromCaller | Services/Tasks/router.py:55 | the owner's name and id come from the caller |
| TasksRouter.OwnedTaskDict | Services/Tasks/router.py:55 | the create arguments are the body's fields in order, followed by the caller's name and id |
| TasksRouter.CreateTasks | Services/Tasks/router.py:52-61 | an unauthenticated caller changes nothing; otherwise the tasks table follows the repository's create, success answers 201 with the row and failure answers the plain 500 |
| TasksRouter.OwnedTaskRow | Services/Tasks/router.py:55 | the new task takes the next id and the body's title, status and priority |
| TasksRouter.OwnedTaskDescription | Services/Tasks/router.py:55 | the new task's description is the body's, or `None` |
| TasksRouter.OwnedTaskOwner | Services/Tasks/router.py:55 | the new task's customer name and owner id are the caller's |
| TasksRouter.OwnedTaskStamped | Shared/Base/BaseModel.py:8-9 | both timestamps of the new task are the creation time |
| TasksRouter.OwnedTaskTyped | Services/Tasks/router.py:55 | the create arguments are typed for the tasks table |
| TasksRouter.OwnedTaskNoId | Services/Tasks/router.py:55 | no id is given, so the sequence supplies it |
| TasksRouter.OwnedTaskFilled | Services/Tasks/model.py:12-19 | with a description every NOT NULL column of the new task is filled |
| TasksRouter.CreateTasksStores | Services/Tasks/router.py:52-61 | a task with a description is stored under the next id and answered with 201 |
| TasksRouter.OwnedTaskRefused | Services/Tasks/model.py:14 | a task without a description fails with `IntegrityError`, stores nothing and uses up an id |
| TasksRouter.CreateTasksWithoutDescription | Services/Tasks/router.py:52-61 | creating a task without a description raises `IntegrityError` in the service, spends an id, stores nothing and answers the plain 500 |
| TasksRouter.CreateTasksAddsOne | Services/Tasks/router.py:52-61 | the table stays well-formed; an error stores nothing and answers 500 for a known caller; success adds exactly one task under a fresh id and answers 201 |
| TasksRouter.UpdateTask | Services/Tasks/router.py:64-73 | an unauthenticated caller changes nothing; otherwise the table follows the service's update, success answers 200 with the task and failure answers the plain 500 |
| TasksRouter.UpdateTaskResponds | Services/Tasks/router.py:64-73 | updating a stored task answers 200 with the patched, stamped task under the same id, stored in place |
| TasksRouter.UpdateTaskNotInteger | Services/Tasks/router.py:64-73 | a non-integer id raises `ValueError` in the service, answers the plain 500 and changes nothing |
| TasksRouter.UpdateTaskMissing | Services/Tasks/router.py:64-73 | a missing task raises `NotFoundInDBError` in the service, answers the plain 500, not 404, and changes nothing |

## Left out

- The HTTP framework is not modelled. This covers routing, dependency injection, request parsing and response serialisation. Routers are functions of the caller's authentication outcome.
- The cookie attributes (`secure`, `samesite`) are not modelled. Only the cookie names and values are.
- `Users/router.py` and `app.py` are not part of this model. They only mount routers and list users.
- Session creation (`Shared/Database/Sessions.py`) is not modelled. It is infrastructure.
- Loading `Settings` from the environment is not modelled. The auth settings are a parameter (`Auth.AuthConfig`).
- Logging is left out. It has no effect on results.
- Asynchrony and concurrent requests are left out. Each operation is one atomic step.
- Exception messages of built-in and database exceptions are not modelled. The class name stands for the message (`Responses.Describe`).
- Database errors raised by read queries (`all`, `get_by_filters`, `search_tasks`, `id`) are not modelled. Reads always succeed.
- TasksByFilter (TasksRouter.TasksByFilter, and `TasksRouter.TasksByFilterMeaning`, `BaseRepository.Table.GetByFilters`): a `created_at` query value with a time zone is compared by its wall-clock seconds. The driver refuses an aware value against the naive `created_at` column, so the source answers the plain 500 where the model answers 200 with a filtered list.
- The foreign-key check on `tasks.user_id` is not modelled. It is not checked at insert; only the cascade on user deletion is modelled (`UserModel.DeleteUser`).
- `Table.Delete` does not trigger that cascade. It deletes from one table.
- `OverlappingReservationError` is modelled as a class but never raised. No core operation raises it.
- SQL `LIKE` wildcards inside a search term (`%`, `_`) are taken literally. The model's `contains` is a plain substring test.
- Comparisons between time-zone-aware and naive datetimes are not modelled. A datetime is its wall-clock seconds plus an optional offset, and comparisons use the wall-clock seconds.
- `result.first()` on a query without `ORDER BY` is taken to return the row with the lowest id. The database's real order is unspecified.
- The randomness of `password_generator` and `gensalt` is not modelled. The draws are parameters.
- The clocks are parameters. `utcnow()` is `now` whole seconds plus `micros` microseconds, and the host's UTC offset is explicit. Python's `timestamp()` returns a float; its rounding below the microsecond is not modelled.
- bcrypt's one-way function and its 72-byte limit are not modelled. The digest is an injective stand-in.
- Jose: JWT signing is modelled by equality of key and algorithm. The compact serialisation and the cryptography are not modelled. A refresh query string is taken to be the token's compact form.
- Lower (Text.Lower): only ASCII and the basic Cyrillic capitals are lower-cased. Python's full Unicode case mapping is not.
- ParseInt (Text.ParseInt): its contract states only that a parsed string is non-empty after stripping; its partner is the round trip `Text.IntToStringRoundTrip`. Underscores and non-ASCII digits, which Python's `int()` accepts, are not modelled.
- Strip (Text.Strip): its contract states the ends and the length. The exact characters removed are stated by the helpers `StripLeft` and `StripRight`.
- Construct (BaseRepository.Construct): its contract states only the set of columns. The values are stated by `BaseRepository.Inserted`.
- UpdateTaskSpec (TasksService.UpdateTaskSpec): its contract does not give the new row. `TasksService.UpdateTaskApplies` and `BaseRepository.UpdateReplacesRow` state it.
- HashPassword (UserModel.HashPassword): its contract states only the hash's format. Verification is stated by `UserModel.VerifyOwnHash` and `UserModel.VerifyOtherPassword`.
- CreateUnknownKey (BaseRepository.CreateUnknownKey, and `BaseRepository.UnknownKey`): the model's attributes are the table's columns. SQLAlchemy's constructor also accepts the relationships (`user`, `tasks`); they are not modelled because no caller passes them.
- ApplyItems (BaseRepository.ApplyItems, and `BaseRepository.ApplyItem`): `hasattr` is true for every column, but also for the relationships (`user`, `tasks`) and the methods (`verify_password`, `hash_password`). The model stops at any non-column key. The request schemas of the update endpoints never produce such a key.
- StoppedIff (BaseRepository.StoppedIff): "names no attribute" is stated as "is not a column", for the same reason as `ApplyItems`.
- StoppedAtFirstUnknown (BaseRepository.StoppedAtFirstUnknown): the first item that "names no attribute" is the first non-`None` item whose key is not a column, for the same reason as `ApplyItems`.
