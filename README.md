# task-tracker in Dafny

A model of the core of the task tracker, a Go service. The tracker keeps tasks with deadlines in a
relational table. A Telegram bot lets a user add and list tasks, and a background worker sends
each task's reminder once it is due. An HTTP API sits behind a bearer-token gate, and its tokens
come from a one-time code that the bot issues.

The model covers these parts:

- **wrappers.dfy**: `Option`, `Result`, and `Fault`, the outcome of a store command.
- **text.dfy**: the Go standard-library behaviour the code relies on:
  - `%d`, `%06d` and the zero-padded time fields;
  - `fmt.Sscanf` with `%d`;
  - `strings.Split`, `strings.TrimSpace` and `strings.TrimPrefix`.
- **calendar.dfy**: UTC calendar readings and the nanosecond instants they denote, with the map
  proved strictly increasing.
- **deadlines.dfy**: `ParseTime` for the layout `2.1.2006 15:04`, read the way `time.Parse` reads it, and the zero-padded rendering `02.01.2006 15:04`.
- **tasks.dfy**: the `tasks` table as a class with its three statements:
  - the insert;
  - the due-task query;
  - the flag update.
- **keyvalue.dfy**: the Redis wrapper as a class over a `map<string, string>`.
- **tokens.dfy**: access tokens over an abstract keyed signer.
- **credentials.dfy**: code issue, login, refresh rotation and logout, as functions of the key-value data.
- **service.dfy**: the `TaskService` class. It holds both stores. It provides:
  - task creation;
  - one tick of the notification worker, as a loop;
  - the credential operations as methods proved equal to the functions above.
- **gate.dfy**: the `authMiddleware` decision.
- **bot.dfy**:
  - update dispatch;
  - `/add` argument parsing and handling;
  - `/list` rendering, as a loop that builds the message.

Every outcome the code cannot see ahead of time is a parameter of the operation:

- the current instant;
- the outcome of each database, Redis and Telegram call (`Fault`, where `None` means success);
- the number `rand.Intn` draws;
- the refresh token `uuid.New` makes;
- the signer's keyed MAC.

A failed write leaves its store unchanged.

## Model

| member | source | states |
|---|---|---|
| Deadlines.ParseLayout | internal/service/task.go:33-34 | A string is accepted only as a valid calendar minute with a year of at most four digits |
| Deadlines.ParseTime | internal/service/task.go:31-39 | No error exactly when the layout accepts the string, and then the reading is returned; otherwise Go's zero time and an error that starts with the "некорректно введенная строка времени, " text |
| Deadlines.ParseRender | internal/service/task.go:33-34 | Every valid reading, written with or without leading zeros on day, month and hour and with one or more spaces, parses back to itself |
| Deadlines.ParsedIsRendered | internal/service/task.go:33-34 | Every accepted string is such a rendering of its own reading, so with ParseRender the layout accepts exactly these strings |
| Deadlines.FormatRoundTrip | internal/delivery/telegramHandler/handler.go:100 | A reading formatted by Deadlines.Format as "02.01.2006 15:04" parses back to itself without error |
| Deadlines.FormatLength | internal/delivery/telegramHandler/handler.go:100 | For years up to 9999, Deadlines.Format always gives sixteen characters |
| Deadlines.FormatExample | internal/delivery/telegramHandler/handler.go:100 | 2026-02-15 11:20 renders as "15.02.2026 11:20" |
| Deadlines.ParseLayoutExample | internal/service/task.go:32 | The layout reads "15.02.2026 11:20" as 2026-02-15 11:20 |
| Deadlines.ParseTimeAccepts | internal/service/task_test.go:21 | "15.02.2026 11:20" parses to 2026-02-15 11:20 without error |
| Deadlines.ParseTimeRejectsIso | internal/service/task_test.go:22 | "2026-02-15 11:20" is refused |
| Deadlines.ParseTimeRejectsDateOnly | internal/service/task_test.go:23 | "15.02.2026" is refused |
| Deadlines.ParseTimeRejectsEmpty | internal/service/task_test.go:24 | "" is refused |
| Deadlines.ParseTimeRejectsWord | internal/service/task_test.go:25 | "apple-pie" is refused |
| Calendar.ToInstantMonotone | internal/service/task.go:19 | Calendar order and instant order agree both ways, and distinct readings are distinct instants, so `time.Since(deadline) > 0` compares readings |
| Calendar.StrictlyIncreasing | internal/repository/postgres.go:53 | An earlier reading denotes an earlier instant |
| Service.Validate | internal/service/task.go:13-24 | The input is accepted exactly when the deadline parses and now is not after it, so a deadline equal to now passes. The record then has the user id, the title unchanged, the parsed deadline and zero values elsewhere. A parse failure returns an error that starts with the parse-error prefix, and a past deadline returns the past-deadline error |
| Service.ValidateFormatted | internal/service/task.go:19-21 | A zero-padded deadline is accepted exactly when now is not after it, and the record carries that deadline |
| Service.ValidateLater | internal/service/task.go:19-21 | A later deadline is accepted whenever an earlier one is |
| Service.TaskService.CreateTask | internal/service/task.go:13-29 | A refused input returns its error and writes nothing. An accepted one makes exactly one insert of that record and returns the insert's error unchanged |
| Tasks.TaskTable.Create | internal/repository/postgres.go:31-47 | Appends exactly one row with the given owner, title and deadline, a fresh id, the flag false and the insert instant. A failed statement inserts nothing, and its error is returned unchanged. The table only evolves |
| Tasks.TaskTable.GetActiveTasks | internal/repository/postgres.go:49-67 | Succeeds exactly when neither the query nor the collect fails, and then returns Tasks.ActiveTasks: exactly the unnotified rows whose deadline is not after now. A failure returns its wrapped error and no list |
| Tasks.ActiveTasks | internal/repository/postgres.go:50-54 | Holds exactly the rows with `notified = false AND deadline <= now` and is no longer than the table |
| Tasks.TaskTable.MarkAsNotified | internal/repository/postgres.go:69-77 | Only the flag of the rows with that id becomes true; nothing else changes. A failed statement changes nothing and returns the wrapped error |
| Tasks.Marked | internal/repository/postgres.go:70-71 | Same length; every field except the flag is kept; the flag is the old flag or'ed with membership of the id |
| Tasks.ActiveAppend | internal/repository/postgres.go:50-54 | The query distributes over appended rows, so it keeps table order |
| Tasks.ActiveDistinct | internal/repository/postgres.go:50-54 | The query returns no id twice |
| Tasks.MarkedNotActive | internal/repository/postgres.go:53 | After marking, no row with a marked id is returned by the query |
| Tasks.MarkedIdempotent | internal/repository/postgres.go:70-76 | Marking the same ids again changes nothing |
| Tasks.MarkedUnknown | internal/repository/postgres.go:70-76 | An id no row has leaves the table as it was |
| Tasks.MarkedUnion | internal/repository/postgres.go:70-71 | Marking one batch of ids and then another is the same as marking their union |
| Tasks.UnmarkedStaysActive | internal/repository/postgres.go:53 | A due row whose id is not marked is still returned at every later instant |
| Tasks.MarkedEvolves | internal/repository/postgres.go:70-71 | Marking only sets flags |
| Tasks.EvolvesTransitive | internal/repository/postgres.go:31-77 | The table only evolves across any sequence of the statements |
| Tasks.NeverActiveAgain | internal/repository/postgres.go:53 | Once a row is notified, the query never again returns its id, however the table evolves |
| Service.Reminders | internal/service/worker.go:26-28 | One reminder (Service.Reminder) per task, in fetch order, to the task's owner, with text "⏰Напоминание: " + title |
| Service.TaskService.NotificationTick | internal/service/worker.go:20-31 | If the fetch fails, nothing is sent or marked. Otherwise every fetched task gets one send, in fetch order, and the table becomes the old rows with the delivered ids marked. Mark errors are ignored and the loop goes on |
| Service.DeliveredStep | internal/service/worker.go:26-30 | One more loop step adds the task's id exactly when its send and its update went through |
| Service.DeliveredIff | internal/service/worker.go:28-29 | Among distinct ids, a task is delivered exactly when its send and its update went through |
| Service.TickMarksIffDelivered | internal/service/worker.go:28-29 | After a tick, a fetched task is notified exactly when its send and its update went through |
| Service.FailedSendStaysActive | internal/service/worker.go:28-29 | A task whose send failed stays unnotified and is fetched at every later tick |
| Service.DeliveredNeverAgain | internal/service/worker.go:28-29 | A delivered task is never fetched again, however the table evolves afterwards |
| Service.TickTouchesOnlyFetched | internal/service/worker.go:20-31 | A tick changes only rows it fetched, and it never adds, removes or unflags a row |
| Tokens.VerifyToken | internal/service/auth.go:32-46 | Every failure is "invalid token", and an accepted token is a signature by this signer |
| Tokens.VerifyGenerated | internal/service/auth.go:22-46 | A token made by Tokens.GenerateToken yields its user id at every instant before its expiry claim |
| Tokens.VerifyFresh | internal/service/auth_test.go:21-27 | A token that lives at least one second verifies right after it is made |
| Tokens.VerifyExpired | internal/service/auth.go:25 | A generated token is refused once its expiry claim has passed |
| Tokens.VerifyWithoutClaims | internal/service/auth.go:33-37 | A token whose signed part has no claims separator is refused, whatever follows |
| Tokens.VerifyMalformed | internal/service/auth_test.go:40-42 | "invalid.token.string" is refused with "invalid token" |
| Tokens.DecimalSeparators | internal/service/auth.go:23-26 | A decimal claim holds neither token separator |
| Credentials.AuthCode | internal/service/auth.go:50 | The code is six decimal digits spelling the drawn number |
| Credentials.KeySpaces | internal/service/auth.go:52 | The otp:, refresh: and blacklist: keys never collide, and each key names exactly one user or token |
| Credentials.IssueCodeStores | internal/service/auth.go:48-57 | For Credentials.IssueCode, the returned code is six digits spelling the drawn number and is what `otp:<id>` then holds, replacing any earlier code. The write error is returned, and a failed write changes nothing |
| Credentials.IssueThenLogin | internal/service/auth.go:59-81 | An issued code logs its user in and yields an access token for that user plus a refresh token stored for them |
| Credentials.LoginWrongCode | internal/service/auth.go:60-64 | For Credentials.Login, a missing, unreadable or different code gives "invalid or expired code" and writes nothing |
| Credentials.LoginStoreFails | internal/service/auth.go:73-76 | When the refresh write fails, the login fails and nothing changes, so the code stays |
| Credentials.LoginOnce | internal/service/auth.go:78 | A code logs in at most once once its deletion went through |
| Credentials.LoginAccessToken | internal/service/auth.go:66 | The access token a login returns verifies as that user until it expires |
| Credentials.RefreshUnknown | internal/service/auth.go:94-100 | For Credentials.Refresh, an unknown or unreadable refresh token gives "refresh token expired or invalid" and writes nothing |
| Credentials.RefreshKeepsUser | internal/service/auth.go:103-117 | A refresh token stored for a user gives an access token for that user and, when the write goes through, a new refresh token stored for the same user. Write errors do not change the answer |
| Credentials.RefreshSingleUse | internal/service/auth.go:110-112 | After a rotation whose deletion went through, the previous refresh token is refused |
| Credentials.LogoutRevokes | internal/service/auth.go:83-91 | Credentials.Logout answers only the blacklist write's error. When the writes go through, the access token is blacklisted as "true" and the refresh token no longer refreshes |
| Service.TaskService.GenerateAuthCode | internal/service/auth.go:48-57 | Returns the code and error of Credentials.IssueCode and leaves the store as it says |
| Service.TaskService.Login | internal/service/auth.go:59-81 | Answers what Credentials.Login answers and leaves the store as it says |
| Service.TaskService.Refresh | internal/service/auth.go:93-118 | Answers what Credentials.Refresh answers and leaves the store as it says |
| Service.TaskService.Logout | internal/service/auth.go:83-91 | Answers what Credentials.Logout answers and leaves the store as it says |
| KeyValue.Lookup | internal/repository/redis.go:30-32 | A value exactly when the call succeeds and the key is present. Otherwise the client's error, or "redis: nil" for an absent key |
| KeyValue.Written | internal/repository/redis.go:26-28 | A successful SET makes the key hold the value; every other key is unchanged, and a failed SET changes nothing |
| KeyValue.Removed | internal/repository/redis.go:34-36 | A successful DEL removes the key; every other key is unchanged, and a failed DEL changes nothing |
| KeyValue.KeyValueStore.Set | internal/repository/redis.go:26-28 | Returns the client's error and leaves the data as Written says |
| KeyValue.KeyValueStore.Delete | internal/repository/redis.go:34-36 | Returns the client's error and leaves the data as Removed says |
| Gate.Authenticate | internal/delivery/http/middleware.go:23-44 | A blacklisted token gets 401 "Token is invalidated (logged out)" before any signature check, and a token the signer refuses gets 401 "Unauthorized". Otherwise the request passes exactly once with the verified user id. The store is only read |
| Gate.LogoutRevokesAccess | internal/delivery/http/middleware.go:28-31 | After a logout whose blacklist write went through, the logged-out access token is refused, however valid its signature |
| Gate.LoginOpensGate | internal/delivery/http/middleware.go:34-42 | A login's access token passes the gate for its user until it expires, unless it is blacklisted |
| Gate.LookupFailureIgnored | internal/delivery/http/middleware.go:28 | A failed blacklist lookup counts as not blacklisted |
| Gate.HeaderWithoutPrefix | internal/delivery/http/middleware.go:26 | A header without "Bearer " is verified whole |
| Text.TrimPrefix | internal/delivery/http/middleware.go:26 | Exactly one leading prefix is removed, and a string without it is unchanged |
| Bot.Command | internal/delivery/telegramHandler/handler.go:40 | Empty for a message that is no command. Otherwise the entity's text after the '/', cut at its first '@' if it has one, so the command never holds a bot-name suffix |
| Bot.CommandIgnoresBotName | internal/delivery/telegramHandler/handler.go:40 | "/add@bot" is the command "add" |
| Bot.CommandArguments | internal/delivery/telegramHandler/handler.go:63 | Empty when the message is no command or is the command alone. Otherwise the text after the command and the one character that follows it |
| Bot.BareAddIsMissingArgs | internal/delivery/telegramHandler/handler.go:63-67 | A bare "/add" goes to the add handler with no arguments, so it gets the usage reply |
| Bot.Dispatch | internal/delivery/telegramHandler/handler.go:34-49 | No message, or a message that is no command, is ignored. "start" greets the sender, "add" and "list" go to their handlers, and any other command gets the unknown-command reply in its chat |
| Bot.HandleUpdate | internal/delivery/telegramHandler/handler.go:34-59 | At most one reply per update, as dispatch decides. `/add` replies and writes as Bot.HandleAdd does, `/list` replies as Bot.HandleList does, and only `/add` can write to the table |
| Bot.ParseAddArgs | internal/delivery/telegramHandler/handler.go:63-74 | Empty arguments are missing. Exactly one comma gives two pieces, trimmed, neither holding a comma; any other count is refused |
| Bot.AddArgsRoundTrip | internal/delivery/telegramHandler/handler.go:68-74 | A comma-free title and deadline, with any white space around them, are read back exactly |
| Bot.TitleWithCommaRefused | internal/delivery/telegramHandler/handler.go:68-72 | A title holding a comma is refused |
| Bot.HandleAdd | internal/delivery/telegramHandler/handler.go:61-83 | Exactly one reply, in the message's chat. The usage or format reply comes without a write. Otherwise the chat creates the trimmed title and deadline, and the reply says whether that succeeded |
| Bot.EntryReadsBack | internal/delivery/telegramHandler/handler.go:100-101 | A list entry (Bot.Entry) can be read back: `%d` reads its number from its start, and the sixteen characters before its closing blank line parse back to the task's deadline |
| Bot.EntryAt | internal/delivery/telegramHandler/handler.go:97-103 | Each task's entry sits right after the entries of the tasks before it, so entries are numbered 1..n in repository order |
| Bot.HandleList | internal/delivery/telegramHandler/handler.go:85-105 | A repository error gets "Ошибка сервера" and an empty list gets the no-tasks reply. Otherwise one message: the header, then every entry in order |
| Text.ZeroPad | internal/service/auth.go:50 | Digits only, at least the width long, spelling the value |
| Text.ParseIntRoundTrip | internal/service/auth.go:44 | A decimal claim reads back as the integer it spells |
| Text.ScanIntRoundTrip | internal/service/auth.go:103-104 | Text.ScanInt, the model of `fmt.Sscanf` with `%d`, gives back the user id from its stored decimal |
| Text.ScanIntThen | internal/service/auth.go:104 | Text.ScanInt reads a rendered integer back even when text that does not start with a digit follows it |
| Text.Split | internal/delivery/telegramHandler/handler.go:68 | One more piece than there are separators, no piece holds one, and joining the pieces gives back the string |
| Text.SplitJoin | internal/delivery/telegramHandler/handler.go:68 | Splitting undoes joining separator-free pieces |
| Text.TrimSpace | internal/delivery/telegramHandler/handler.go:73-74 | The result neither starts nor ends with white space and is the part of the input between its leading and trailing white space |
| Text.TrimSpaceOf | internal/delivery/telegramHandler/handler.go:73-74 | Surrounding white space is all that trimming removes |

## Left out

- Key expiry (the 5-minute code TTL, the 30-day refresh TTL and the 15-minute blacklist TTL): an expired key is a key the data no longer holds. The time at which it disappears is not modelled.
- Integer widths:
  - user ids are unbounded integers; the int64 range and the float64 round trip of the `user_id` claim are not modelled (ids above 2^53 lose precision in the source);
  - task ids are unbounded.
- Text.ScanInt: does not model the leading-space skip and the int64 overflow error of `fmt.Sscanf`. The model's values always come from `IntToDecimal`.
- Deadlines.ParseTime: the error carries only the fixed prefix and not the text of Go's own parse error.
- Tokens: JWT encoding (header, base64 and JSON) is not modelled. A token is the claims "user:exp" followed by the signer's MAC, and the signer is a parameter.
- Tokens.VerifyToken: its contract states that an accepted token was signed by this signer. That the claims are exactly the user id and the expiry is proved for generated tokens (VerifyGenerated) only.
- Tokens: signing errors and the "invalid claims" branch of `VerifyToken` cannot arise in the model.
- Tokens.VerifyToken: the source reads `user_id` with an unchecked type assertion (internal/service/auth.go:44). A correctly signed token without a numeric `user_id` therefore panics in the source, while the model answers "invalid token". Only a holder of the secret can make such a token.
- Tasks.ActiveTasks: the due-task query has no `ORDER BY`, so the database may return the rows in any order. The model returns them in table order. ActiveAppend, the order of the reminders in a tick and the numbering in `/list` hold for that choice only.
- Text is modelled as a sequence of characters, not of bytes. `CommandArguments` skips one character after the command, where Go skips one byte. When a multi-byte character follows the command, Go keeps the rest of that character's bytes in the arguments; the model does not.
- Tasks.TaskTable.Create: the database's defaults for `id`, `notified` and `created_at` are modelled as a serial id, false and the insert instant.
- The current instant is a parameter. `ParseTime` reads a deadline as UTC, and the model compares it with that instant, as the source does.
- `GetTasksByUserID` has no implementation in the repository. The list handler takes its result as a parameter.
- Tokens.VerifyToken: the source uses the wall clock; here the instant is a parameter.
- Telegram:
  - a send is an outcome parameter and the reply is returned as data;
  - the bot-command entity's length is part of the message;
  - entity offsets in UTF-16 units are not modelled.
- `Start`'s update channel loop, the per-update 5-second timeout and context cancellation are not modelled.
- The worker's one-minute ticker and its `select` loop are not modelled. One tick is modelled.
- Logging (`slog`) and `LoggingMiddleware` are not modelled.
- Request context values are not modelled: the gate's `Passed` carries the user id instead.
- cmd/server/main.go, pkg/telegram/client.go, internal/config/config.go, internal/delivery/http/handler.go and internal/delivery/telegramHandler/keyboards.go are not part of this model.
- `DeleteByID`, `SaveAuthCode` and `VerifyAuthCode` are declared in the repository interface but have no implementation, so they are not part of this model.
- Behaviour of the code that the model keeps as it is:
  - There is no per-user dialogue state; `/add` takes `title, deadline` in one message.
  - The worker fetches tasks with `deadline <= now`, with no look-ahead window.
  - A deadline equal to now is accepted, and an empty title is not refused.
  - A login deletes the code only after it stores the refresh token, and it ignores that deletion's error.
  - Logout blacklists the token for a fixed 15 minutes.
  - The list is sent in the order the repository returns, with no ordering by deadline and no delete button.
  - The greeting goes to the sender's id.
