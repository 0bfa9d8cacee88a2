# Tanglaw backend: a verified model of the request handlers

Tanglaw is a peer-support web application. Its Flask backend keeps four
relational tables:
- `users`: accounts with a hashed password and a role, `user` or `counselor`;
- `counselor_codes`: single-use tokens that authorize counselor accounts;
- `messages`: the messages between two users;
- `appointments`: appointments between a user and a counselor, each with a status.

This project models the request handlers of the current backend
(`backend/routes.py`) and of the first working version
(`backup/v1-working-db-backend-frontend/backend/routes.py`). It proves what
each handler answers and how it changes the tables.

## How the model is built

- **The store.** `Store.Database` is a class with one sequence per table.
  It also holds the three AUTO_INCREMENT counters and a clock that stands for
  `CURRENT_TIMESTAMP`.
  - Each INSERT and UPDATE a handler issues, and the rollback, is one
    `Database` method stating the whole new state.
  - Each SELECT is a function of the tables: `Store.FindUserByName`,
    `Store.FindUserById` and `Store.FindCode` for the lookups, and
    `Listing.Directory`, `Listing.Conversation` and
    `Listing.Joined`/`Listing.NewestFirst` for the listings.
  - `Valid()` collects what the model assumes of the tables: unique usernames
    and codes, AUTO_INCREMENT ids increasing in row order, appointments holding
    real dates and times, and a status among the four known ones. Its clock
    also keeps messages in timestamp order (see "## Left out").
- **Store failures.** A handler's store operations are numbered in the order
  it issues them: 0 is opening the connection, then one number per statement,
  then the commit. The `Fault` parameter says which operation, if any, raises.
  - A handler that catches the exception answers `500` with "Server error".
    The five handlers that write roll back first; `login`, `list_users` and
    `get_messages` have nothing to roll back.
  - The handlers that catch nothing (`get_appointments`, and both v1
    handlers) answer with the framework's own `500`. They keep no uncommitted
    change.
  - A rollback restores the tables but not the AUTO_INCREMENT counters, as the
    database does.
- **Requests.** A JSON field or query argument is an `Option`. Python
  truthiness becomes `HasText` (a present, non-empty string) and `HasId` (a
  present, non-zero integer). `(x or "").strip()` becomes `Trimmed`, which
  strips the whole `str.isspace` character set.
- **Password hashing** is a stand-in. The one fact the handlers rely on is
  that a digest verifies against the password it was made from.
- **Read-only handlers.** `Login`, `GetMessages` and v1's `Login` are
  functions. `ListUsers` and `GetAppointments` keep the source's loops as
  methods with loop invariants, specified by the functions in `Listing`.
  Those functions carry the properties: the alias is injective, the
  conversation is symmetric and chronological, and the appointment list is
  sorted newest first, is a permutation of the join, and renders dates and
  times that parse back.

Some behaviour of the code that its own comments do not suggest:
- The docstring of create_appointment (backend/routes.py:276) writes the formats
  as YYYY-MM-DD and HH:MM or HH:MM:SS. `strptime` also accepts one-digit months,
  days, hours, minutes and seconds, and the model accepts them too.
- `get_appointments` and both v1 handlers catch no store exception and leave
  the connection open on error paths.
- `update_appointment_status` enforces no order between statuses: any of the
  four may replace any other.

## Model

| member | source | states |
|---|---|---|
| Text.StripMeaning | backend/routes.py:38-39 | `.strip()` leaves the middle of the text between white space at both ends; the result is empty exactly when the text is all white space, and otherwise neither end is white space |
| Text.StripIdempotent | backend/routes.py:38-39 | stripping an already stripped name changes nothing, so a stored name is found again when it is typed back |
| Store.GeneratePasswordHash | backend/routes.py:55 | the digest made from a password verifies against that password |
| Store.FindUserByName | backend/routes.py:51-52 | the username lookup finds nothing exactly when no row has the name, and otherwise the first row with it |
| Store.FindUniqueName | backend/routes.py:141-142 | with unique usernames the lookup returns the one row with that name |
| Store.FindUserById | backend/routes.py:302-303 | the id lookup finds nothing exactly when no row has the id, and otherwise a row with it |
| Store.FindUniqueId | backend/routes.py:302-303 | with unique ids the lookup returns the one row with that id |
| Store.FindCode | backend/routes.py:91-92 | the code lookup finds nothing exactly when no row has the code, and otherwise a row with it |
| Store.FindUniqueCode | backend/routes.py:91-92 | with unique codes the lookup returns the one row with that code |
| Store.Database.InsertUser | backend/routes.py:57-60 | one row with the next id, the name, the digest, the role and the current time is appended, and the table stays well-formed |
| Store.Database.MarkCodeUsedById | backend/routes.py:112 | exactly the rows with that id get `is_used` set, and nothing else changes |
| Store.Database.MarkCodeUsedByCode | backup/v1-working-db-backend-frontend/backend/routes.py:29 | exactly the rows with that code get `is_used` set, and nothing else changes |
| Store.Database.InsertMessage | backend/routes.py:257-260 | one message with the next id and the current timestamp is appended, so the table stays in timestamp order |
| Store.Database.InsertAppointment | backend/routes.py:311-314 | one appointment with the next id and status "pending" is appended |
| Store.Database.SetAppointmentStatus | backend/routes.py:373 | exactly the rows with that id take the new status, and nothing else changes |
| Store.Database.Rollback | backend/routes.py:116-118 | the tables return to what they held when the transaction began, and the counters do not go back |
| Routes.LookupsAgree | backend/routes.py:91-101 | the lookups answer the questions the handlers ask: whether the name is taken, whether the code was issued, and whether it is spent |
| Routes.RegisterUser | backend/routes.py:36-69 | a blank name or password gives 400. Otherwise 500 is answered exactly when the connection or the lookup raises, or the name is free and the INSERT or the commit raises. Failing that, an existing name gives 409 and a new one gives 201. The users table changes only on 201, by exactly one appended row with role "user", after which login with the same credentials succeeds |
| Routes.InsertUserAndCommit | backend/routes.py:55-67 | the INSERT and the commit both happen, or a failure in either leaves the users table as it was |
| Routes.RegisterCounselor | backend/routes.py:75-121 | the errors come in the source's order: blank field 400, unknown code 400, used code 400, taken name 409. 500 is answered exactly when an operation the handler reaches raises: the connection or the code lookup always; the username lookup once the code is valid and unused; and the INSERT, UPDATE or commit once the name is also free. No table changes unless the answer is 201, so a failure after the checks rolls back both writes. On 201 exactly one counselor row is appended, exactly the one matching code flips to used, and login succeeds |
| Routes.CreateCounselorAndCommit | backend/routes.py:103-119 | the user INSERT and the code UPDATE are committed together, or a failure in any of the three operations leaves both tables as they were |
| Routes.UpdateByIdTouchesOneRow | backend/routes.py:112 | with unique ids, the UPDATE by the code's id flips that one code and no other |
| Routes.Login | backend/routes.py:127-161 | a blank name or password gives 400. Otherwise 500 is answered exactly when the connection or the lookup raises. An unknown name and a wrong password give the same 401 response. 200 is answered exactly when some row has the name and its digest verifies, and the body is that row's id, username and role, never the digest |
| Routes.LoginFindsNewUser | backend/routes.py:141-157 | right after a row with a fresh name is appended, logging in with its name and password succeeds and shows that row |
| Listing.AliasInjective | backend/routes.py:184-187 | two aliases are equal only when the ids are equal and both or neither account is a counselor's |
| Text.NatToStringMeaning | backend/routes.py:185-187 | `str(n)` of a non-negative id is decimal digits, with no leading zero, reading back as the id |
| Text.IntToStringInjective | backend/routes.py:185-187 | different ids print differently |
| Listing.DirectorySound | backend/routes.py:181-192 | every directory entry is the entry of a stored row that is not excluded |
| Listing.DirectoryComplete | backend/routes.py:181-192 | every stored row that is not excluded has its entry, with its alias and its role, in the directory |
| Listing.DirectoryMembers | backend/routes.py:181-192 | an entry is in the directory exactly when it is the entry of a row that is not excluded |
| Listing.DirectoryHidesExcluded | backend/routes.py:182-183 | a truthy `exclude_id` never appears in the directory |
| Listing.DirectoryIdsIncrease | backend/routes.py:178-181 | the directory keeps the table's order, with ids increasing |
| Listing.DirectoryAliasesDistinct | backend/routes.py:184-187 | no two directory entries share an alias |
| Routes.ListUsers | backend/routes.py:167-197 | a store failure gives 500; otherwise the loop yields 200 with the directory of the whole table, which the lemmas above describe |
| Listing.ConversationMembers | backend/routes.py:218-222 | the conversation holds exactly the stored messages from either party to the other |
| Listing.ConversationSymmetric | backend/routes.py:221-222 | which party asks does not matter |
| Listing.ConversationChronological | backend/routes.py:223 | taken from a table in timestamp order, the conversation is in timestamp order |
| Listing.ChronologicalUnique | backend/routes.py:223 | two timestamp-ordered lists with the same members are the same list |
| Listing.TailMembers | backend/routes.py:223 | two timestamp-ordered lists that agree on members and on the first message agree on the members of the rest |
| Listing.ConversationAppend | backend/routes.py:257-261 | a newly stored message ends the conversation it belongs to and leaves other conversations as they were |
| Routes.GetMessages | backend/routes.py:203-230 | a missing or zero id gives 400 and a store failure gives 500. Otherwise 200 returns exactly the messages between the two parties, in timestamp order |
| Routes.GetMessagesSymmetric | backend/routes.py:218-224 | swapping `from_id` and `to_id` gives the same response |
| Routes.GetMessagesDetermined | backend/routes.py:218-224 | any timestamp-ordered list of exactly the two parties' messages is the list returned |
| Routes.GetMessagesBody | backend/routes.py:218-226 | with both ids given and the store answering, the list returned is the conversation of the two parties the table holds |
| Routes.PostMessage | backend/routes.py:233-268 | a missing id or blank content gives 400. A failure of any of the three operations gives 500 and leaves the table as it was. Otherwise 201 appends one message with the stripped content. The message becomes the last of the two parties' conversation in either order, which is what GET /api/messages returns (Routes.GetMessagesBody) |
| Routes.InsertMessageAndCommit | backend/routes.py:257-266 | the INSERT and the commit both take effect, or a failure in either leaves the messages table as it was |
| DateTime.ParseDate | backend/routes.py:288 | `strptime("%Y-%m-%d")` succeeds only on a date the calendar has |
| DateTime.ParseClock | backend/routes.py:290-292 | one `strptime` attempt succeeds only on a valid time of day; "%H:%M" sets no seconds |
| DateTime.ParseTime | backend/routes.py:289-292 | "%H:%M" first, then "%H:%M:%S"; a success is a valid time of day |
| Routes.RoleLookup | backend/routes.py:302-309 | the role lookup finds nothing exactly when no user has the id, and finds the role "counselor" exactly when that user is a counselor |
| Routes.CreateAppointment | backend/routes.py:274-322 | in order: a missing field gives 400; a date or time that does not parse gives 400; an unknown counselor id gives 404; a user who is not a counselor gives 400. Once the fields parse, 500 is answered exactly when the connection or the role lookup raises, or the id is a counselor's and the INSERT or the commit raises. No row is added unless the answer is 201, which appends exactly one pending appointment holding the parsed date and time, and no other table changes |
| Listing.LeadingDigits | backend/routes.py:340 | the leading digits of the text parameter, which MySQL reads as the number it compares with the id columns |
| Listing.JoinedMembers | backend/routes.py:335-340 | the join holds each appointment of the requester whose two parties both have a row, named as their rows name them, and nothing else |
| DateTime.NotEarlierTotal | backend/routes.py:341 | any two (date, time) moments compare one way or the other |
| DateTime.NotEarlierTransitive | backend/routes.py:341 | the newest-first order is transitive |
| Listing.InsertNewestFirstMultiset | backend/routes.py:341 | inserting a row into the listing adds exactly that row |
| Listing.FirstPrecedesInserted | backend/routes.py:341 | a row the insertion passes may come before every row after it |
| Listing.InsertNewestFirstOrder | backend/routes.py:341 | inserting into a newest-first listing keeps it newest first |
| Listing.NewestFirstCorrect | backend/routes.py:341 | the listing is ordered by date, then time, newest first, and is a permutation of the joined rows |
| DateTime.DateFields | backend/routes.py:349-351 | the three fields of `str(date)` are well-formed `strptime` fields that read back as year, month and day |
| DateTime.DateRoundTrip | backend/routes.py:349-351 | the text shown for a stored date parses back with "%Y-%m-%d" to the same date |
| DateTime.TimeRoundTrip | backend/routes.py:352-353 | the text shown for a stored time, "H:MM:SS", parses back through the "%H:%M:%S" fallback to the same time |
| Listing.RenderRoundTrip | backend/routes.py:349-353 | each rendered row shows a date and a time that read back as the stored ones |
| Routes.RenderAll | backend/routes.py:349-353 | the loop renders every row, in order, and nothing else |
| Routes.GetAppointments | backend/routes.py:325-355 | a missing or empty `user_id` gives 400, and a store failure escapes as the framework's 500. Otherwise 200 returns the requester's joined rows, newest first, each rendered with text dates and times |
| Routes.ListedCorrect | backend/routes.py:334-355 | the returned list is newest first, is a permutation of the join, and involves the requester in every row. Every date and time in it reads back as the stored one |
| Routes.SetStatusTouchesOneRow | backend/routes.py:373 | with increasing ids, the UPDATE changes only the status of the one row with the id, and changes nothing when there is none |
| Routes.UpdateAppointmentStatus | backend/routes.py:359-381 | a status outside the four known values gives 400 with no change, and a store failure gives 500 with no change. Otherwise 200 sets the status of that appointment only, and also answers 200, changing nothing, when no appointment has the id |
| RoutesV1.UnusedCodeLookup | backup/v1-working-db-backend-frontend/backend/routes.py:24-26 | the code lookup finds a row exactly when an unused row has the code |
| RoutesV1.UpdateByCodeTouchesOneRow | backup/v1-working-db-backend-frontend/backend/routes.py:29 | with unique codes, the UPDATE by code flips exactly that code |
| RoutesV1.LoginFindsNewUser | backup/v1-working-db-backend-frontend/backend/routes.py:49-57 | the account appended last logs in with its own name and password and is answered with its role |
| RoutesV1.RegisterWrites | backup/v1-working-db-backend-frontend/backend/routes.py:28-34 | the code UPDATE (when there is a code), the INSERT and the commit all take effect, or none of them does |
| RoutesV1.Register | backup/v1-working-db-backend-frontend/backend/routes.py:8-38 | an existing username gives 400 before any code is looked at. A truthy code that is absent or used gives 400. Neither failure changes a table. Otherwise 201 echoes the role, appending one user, counselor exactly when a code was given; only with a code is that one code flipped to used. Login then succeeds. The framework's 500 is answered exactly when an operation the handler reaches raises: the connection or the username lookup always; once the name is free, the code lookup when a code is given, then the UPDATE (with a code), the INSERT and the commit once the code is valid or absent. Any answer but 201 leaves both tables unchanged |
| RoutesV1.Login | backup/v1-working-db-backend-frontend/backend/routes.py:42-57 | an unknown name and a wrong password give the same 401. 200 is answered exactly when some row has the name and its digest verifies, and it returns that row's role. A store failure escapes as a 500 |

## Left out

- Connections and cursors: how they are opened and closed, `safe_close`, and failures while closing. The JSON encoding of responses is not modelled either. Exception text (`str(e)`) in 500 and date/time error bodies is dropped.
- Concurrency and transaction isolation: each handler runs alone against the tables.
- MySQL collation: the store compares usernames and codes exactly. MySQL's default collation is case-insensitive. In MySQL 8.0 the default, `utf8mb4_0900_ai_ci`, also ignores accents but is NO PAD, so trailing spaces count; older PAD SPACE collations ignore trailing spaces.
- Foreign keys: the schema is not among the sources. The model accepts messages and appointments whose user ids have no row.
- JSON values of unexpected types. Text fields are strings, ids are integers and `is_peer_support` is a boolean or absent. A number sent as `username`, which makes `.strip()` raise outside the `try`, is not modelled.
- `CURRENT_TIMESTAMP` has one-second resolution. The model's clock strictly increases, so it never holds two messages with the same timestamp, which `ORDER BY timestamp` would leave unordered.
- `list_users` has no `ORDER BY`. The model returns the rows in table order.
- Listing.NewestFirst: appointments that share a date and a time come out in one fixed order. SQL leaves that order open.
- DateTime.ParseDate: does not accept the space-padded day form (" 5") that `%d` allows, or non-ASCII digits.
- DateTime.ParseClock: does not accept non-ASCII digits.
- Listing.SqlInt: reads only leading ASCII digits. MySQL's conversion of the text `user_id` also skips leading spaces and reads a sign, a fraction and an exponent.
- RoutesV1.Register: `username` and `password` are taken as present strings. An absent field, which the database or the hashing call rejects, and a request body that is not JSON at all are not modelled.
- RoutesV1.Login: `username` and `password` are taken as present strings. An absent password makes the hash check raise, and that case is not modelled.
- Password hashing algorithms and salts: the digest is a stand-in that verifies exactly the password it was made from.
- The Flask application setup, CORS and static file serving (both `app.py` files) and `db_config.py` are not part of this model.
