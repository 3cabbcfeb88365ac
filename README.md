# Dynamic user segmentation service — a Dafny model

The service keeps a catalog of named segments (slugs such as `AVITO_VOICE_MESSAGES`), the set of
(user, segment) memberships, and an audit log of every membership change. Users are added to and
removed from segments by request, or enrolled automatically so that a segment with an
auto-enrollment percentage `p` reaches `floor(N * p / 100)` of the `N` known users. A monthly
report lists the audit rows of one month as CSV.

This project models, in Dafny:

- the **input validators** of the service layer: slug normalisation (trim, non-empty, no lower-case
  letter), the `N%` percentage parser with its ordered error cases, and the guard clauses of the
  membership update (`Strings`, `SegmentService`, `UserService`);
- the **PostgreSQL storage** as a class `Postgres.Storage` whose fields are the three tables
  (`segments`, `user_segments`, `operations`). Every method works on a copy of the tables, the
  transaction, and assigns the copy back only where the source commits, so a call that fails leaves
  the tables as they were. The statements of each transaction are also written as functions on a
  `Tables` value (`SegmentTable`, `Memberships`, `OperationLog`), and each storage method is
  proved to perform exactly that function's transition;
- **auto-enrollment**: the segment selection, the user count taken once, the top-up of each
  segment, and the audit rows it writes (`Memberships.AutoAddUserSegments` and its helpers);
- the **report**: the `2006-01` month gate, the month window of the audit query, ordering by user
  id, the CSV row list and the file name/URL path shared by one id (`OperationService`,
  `OperationLog`, `DateTimes`);
- the **configuration validators**: the log-level parser and the two ordered check chains
  (`Config`).

Errors are the values `CustomErrors.Error`: `Custom(field, message)` is the record
`custom_error.CustomError`, whose `Error()` text is its message; `Plain(message)` is any other Go
error, identified by its text.

Where the code and its design notes differ the model follows the code: the deleted flag of a
segment is consulted only by `CreateSegment`, so a soft-deleted segment can still be joined, is
still auto-enrolled and still satisfies the foreign key; and the service passes the storage layer the
arguments the storage functions actually take. The storage method `DeleteSegment` is not part of
this model. Only its service-level validation, `SegmentService.DeleteSegmentRequest`, is modelled.

## Model

| member | source | states |
|---|---|---|
| Strings.TrimLeft | internal/service/segment.go:33-34 | the result is a suffix of the input, starts with a non-space, and everything dropped is a space |
| Strings.TrimRight | internal/service/segment.go:33-34 | the result is a prefix of the input, ends with a non-space, and everything dropped is a space |
| Strings.TrimSpace | internal/service/segment.go:33-34 | strings.TrimSpace: the result is the slice `s[i..j]` left after removing only spaces (the unicode.IsSpace set) at both ends, and neither of its ends is a space |
| Strings.TrimSpaceIdempotent | internal/service/segment.go:33-34 | trimming twice is trimming once |
| Strings.ToUpper | internal/service/segment.go:43 | strings.ToUpper keeps the length and maps each character by the ASCII upper-case map |
| Strings.ToLower | cmd/dynamic-user-segmentation/config.go:112 | strings.ToLower keeps the length and maps each character by the ASCII lower-case map |
| Strings.UpperInvariant | internal/service/segment.go:43-48 | `ToUpper(s) == s` holds exactly when `s` has no lower-case letter, so digits, `_` and punctuation pass |
| Strings.DigitsRoundTrip | internal/service/operation.go:98 | the decimal rendering of `n` is a non-empty digit string that reads back as `n` |
| Strings.PadRoundTrip | internal/service/operation.go:101 | a number below `10^width`, zero-padded to `width`, is `width` digits that read back as the number |
| Strings.DigitsValueBound | internal/service/operation.go:40-41 | a digit string of length k spells a number below `10^k` |
| Strings.DigitsValueInjective | internal/service/operation.go:40-41 | two digit strings of the same length that spell the same number are equal |
| Strings.PadOfDigits | internal/service/operation.go:40-41 | a digit string is the zero-padded rendering of its own value at its own width |
| Strings.ItoaRoundTrip | internal/service/operation.go:98 | `Strings.Itoa` (strconv.Itoa): a non-negative number renders as digits reading back as it; a negative one as `-` then the digits of its magnitude |
| DateTimes.DaysInMonth | internal/storage/postgres/operation.go:22 | February has 29 days exactly in Gregorian leap years and 28 otherwise; April, June, September and November have 30; the other seven months have 31 |
| DateTimes.MonthStart | internal/storage/postgres/operation.go:18-22 | the first instant of a month (`time.Date(y, m, 1, 0, 0, 0, 0, UTC)`) is a valid instant of that month, and no instant of the month comes before it |
| DateTimes.MonthEnd | internal/storage/postgres/operation.go:18-22 | one nanosecond before the next month is a valid instant of the month, and no instant of the month comes after it |
| DateTimes.MonthWindow | internal/storage/postgres/operation.go:18-22 | the window from the month's first instant to one nanosecond before the next month holds exactly the instants of that year and month |
| DateTimes.FormatDateTimeFields | internal/service/operation.go:101 | `DateTimes.FormatDateTime` (`time.DateTime` formatting) of a valid instant of years 0..9999 gives 19 characters with `-`, `-`, ` `, `:`, `:` in place, and each field reads back as the instant's year, month, day, hour, minute and second |
| SegmentService.NormalizeSlug | internal/service/segment.go:33-48 | accepted iff the trimmed slug is non-empty and has no lower-case letter, yielding the trimmed slug; the empty check comes first with "empty slug", then the case check, both on field "slug" |
| SegmentService.NormalizeSlugIdempotent | internal/service/segment.go:33-48 | a slug that passed the checks passes them again as itself |
| SegmentService.ScanPercentageAgrees | internal/service/segment.go:22 | `SegmentService.WellFormedPercentage` accepts exactly the strings a left-to-right matcher of the regular expression `^\d+%$` accepts: one or more digits, then `%` as the last character |
| SegmentService.ValidatePercentage | internal/service/segment.go:63-98 | `""` gives 0; otherwise accepted iff the text is `N%` (digits then `%`) with 1 <= N <= 100, yielding N; a failing input gets, in order, the format error, the strconv int64 range error, "more than 100", or "cannot be zero", all on field "percentage"; 0 comes only from `""` |
| SegmentService.ValidatePercentageRoundTrip | internal/service/segment.go:63-98 | every percentage 1..100 written as `N%` validates to itself |
| SegmentService.CreateSegmentRequest | internal/service/segment.go:32-60 | the slug error wins over the percentage error; success iff both validate, forwarding the trimmed slug and the validated (trimmed) percentage |
| SegmentService.CreateSegment | internal/service/segment.go:32-61 | an invalid request returns its error and leaves the store untouched; a valid one performs exactly the catalog transition of `SegmentTable.Create` on the trimmed slug |
| SegmentService.DeleteSegmentRequest | internal/service/segment.go:100-118 | the same trim, empty and case checks as CreateSegment, with the same errors; success forwards the trimmed slug |
| UserService.ValidateUpdate | internal/service/user.go:27-58 | no error iff user id > 0, some list non-empty and no slug of either list has a lower-case letter; otherwise the first failing check in source order (user id, both empty, add list, delete list) names the field and message; slugs are not trimmed |
| UserService.UpdateUserSegments | internal/service/user.go:27-65 | a request that fails validation changes nothing; one that passes reaches storage with the lists and user id unchanged and has exactly the storage call's effect and error |
| UserService.GetActiveSegments | internal/service/user.go:67-76 | a non-positive user id gives field "user_id" and no slugs; otherwise the slugs the user holds, each once |
| SegmentTable.Create | internal/storage/postgres/segment.go:11-80 | success iff the slug is absent or soft-deleted; then the slug is active with exactly the given percentage; an active slug gives `slug + " already exists"` on field "slug" and an unchanged table; other slugs' rows are never touched |
| SegmentTable.CreateTwice | internal/storage/postgres/segment.go:50-79 | after a successful create, creating the same slug again fails with "already exists" and keeps the first call's table |
| Postgres.Storage.Commit | internal/storage/postgres/user.go:49 | the transaction's tables become the stored ones |
| Postgres.Storage.CreateSegment | internal/storage/postgres/segment.go:11-80 | the segments field becomes the table of `SegmentTable.Create` and the error is its error; memberships and the log are unchanged; the foreign key is kept |
| Postgres.Storage.UpdateUserSegments | internal/storage/postgres/user.go:17-55 | the add loop then the delete loop over a transaction copy: on success the stored tables are exactly `Memberships.UpdateUserSegments`, on failure its error is returned and nothing is stored; the foreign key is kept |
| Postgres.Storage.GetActiveSegments | internal/storage/postgres/user.go:141-167 | the returned slugs are exactly those the user holds, with no repeats; nothing is written |
| Postgres.Storage.AutoAddUserSegments | internal/storage/postgres/user.go:169-223 | one committed transaction: the catalog is unchanged, memberships only grow, the known users stay the same, each segment with p > 0 ends with `max(have, floor(N * p / 100))` members (N counted at the start), other segments keep their members, and the log gains exactly one auto "add" row per new membership |
| Postgres.Storage.GetOperations | internal/storage/postgres/operation.go:10-41 | the rows of the month's window in the log, projected on four columns, one record per row of the window (each record as often as the rows that project to it), ordered by user id (non-decreasing) and a permutation of the selected rows; nothing is written |
| Memberships.AddUserSegment | internal/storage/postgres/user.go:77-108 | fails iff no segment row has the slug, with `slug + " doesn't exist"` on field "segments_to_add"; otherwise adds the pair and appends one "add" row with the given auto flag and instant |
| Memberships.DeleteUserSegment | internal/storage/postgres/user.go:110-139 | fails iff the user lacks the pair, with "User (u) doesn't have segment s" on field "segments_to_delete"; otherwise removes the pair and appends one manual "delete" row |
| Memberships.AddStep | internal/storage/postgres/user.go:29-39 | one pass of the add loop: when checkUserSegment (`Memberships.HasSegment`) finds the pair the step is skipped and the tables are unchanged; otherwise it fails iff no segment row has the slug, and else adds the pair with one manual "add" row |
| Memberships.FreshAddsFacts | internal/storage/postgres/user.go:28-40 | the slugs that insert are exactly the listed slugs the user lacked, each once, however often the list repeats them |
| Memberships.AddsErrorPersists | internal/storage/postgres/user.go:28-40 | once a prefix of the add list fails, the whole add loop returns that same error |
| Memberships.DeletesErrorPersists | internal/storage/postgres/user.go:42-47 | once a prefix of the delete list fails, the whole delete loop returns that same error |
| Memberships.ApplyAddsOutcome | internal/storage/postgres/user.go:28-40 | the add loop `Memberships.ApplyAdds` succeeds iff every slug names a segment row or is already held; then the pairs of the list are added and one manual "add" row per fresh slug is appended, in order; else the error is that of the first failing slug |
| Memberships.ApplyDeletesOutcome | internal/storage/postgres/user.go:42-47 | the delete loop `Memberships.ApplyDeletes` succeeds iff every slug is held and none repeats; then the pairs are removed and one manual "delete" row per slug is appended, in order; else the error is that of the first failing slug |
| Memberships.UpdateOutcome | internal/storage/postgres/user.go:17-55 | closed form of `Memberships.UpdateUserSegments`: success iff every add and then every delete succeeds; the memberships become `(old + adds) - dels`, the log gains the add rows then the delete rows; the error is the first failing add's, or else the first failing delete's |
| Memberships.AddThenDelete | internal/storage/postgres/user.go:28-47 | adds run before deletes: a slug in both lists ends up absent, one only added ends up held |
| Memberships.UpdateAuditRows | internal/storage/postgres/user.go:26-47 | a successful update keeps the old log as a prefix and appends one row per inserted pair and one per deleted pair, all for this user, manual and stamped with the same instant, inserted slugs first |
| Memberships.UpdateLog | internal/storage/postgres/user.go:17-55 | the log after a successful update is the old log, then the add rows, then the delete rows |
| Memberships.OtherUsersUntouched | internal/storage/postgres/user.go:17-55 | an update never changes another user's memberships |
| Memberships.UpdateKeepsReferences | internal/storage/postgres/user.go:77-108 | an update keeps the foreign key: every membership still names a segment row |
| Memberships.RepeatedAddIsNoOp | internal/storage/postgres/user.go:28-35 | repeating a successful add-only update, at any later instant, succeeds and changes nothing, writing no audit row |
| Models.KnownUsersFacts | internal/storage/postgres/user.go:225-241 | countUsers counts `DISTINCT user_id`: a user is in `Models.KnownUsers` exactly when some membership names it, and there are at most as many known users as memberships |
| Memberships.AutoAddTarget | internal/storage/postgres/user.go:210 | `floor(N * p / 100)` is between 0 and N; it is N when p = 100 and 0 when p = 0 |
| Memberships.EnrollmentsFacts | internal/storage/postgres/user.go:296-301 | enrolling known users in one segment leaves the set of known users unchanged, adds exactly those users to that segment and leaves every other segment's members as they were |
| Memberships.PickUsers | internal/storage/postgres/user.go:267-294 | the `SELECT DISTINCT ... LIMIT` picks distinct eligible users, `min(limit, eligible)` of them |
| Memberships.EnrollUsers | internal/storage/postgres/user.go:296-301 | the insert loop adds exactly the picked pairs and appends one auto "add" row per user, in order |
| Memberships.AddSegmentToUsers | internal/storage/postgres/user.go:243-304 | a segment with at least `amount` members is left alone; otherwise it grows to `min(amount, N)` members with users already known, no other segment changes, and each new membership has exactly one auto "add" row stamped with the call's instant |
| Memberships.SelectAutoSegments | internal/storage/postgres/user.go:185-207 | exactly the segments with a positive percentage, each once, with their percentage (deleted ones included) |
| Memberships.AutoAddUserSegments | internal/storage/postgres/user.go:169-223 | as `Postgres.Storage.AutoAddUserSegments`, on a transaction value: each segment with p > 0 ends with `max(have, floor(N * p / 100))` members, nothing else changes, the known users stay the same, one auto "add" row per new membership |
| OperationLog.Record | internal/models/operation.go:5-10 | a row's user id, slug, date and action name are carried over; auto_add is not selected |
| OperationLog.Selected | internal/storage/postgres/operation.go:11-22 | every selected record comes from a log row in the window, and every log row in the window is selected |
| OperationLog.SelectedCount | internal/storage/postgres/operation.go:11-22 | one record per logged row: each record occurs in the selection exactly as many times as there are log rows in the window that project to it |
| OperationLog.SelectedAppend | internal/storage/postgres/operation.go:11-22 | selection distributes over appending logs (the order of the log is kept) |
| OperationLog.SelectedEmpty | internal/storage/postgres/operation.go:28-40 | the result is empty exactly when no logged operation falls in the window |
| OperationLog.Insert | internal/storage/postgres/operation.go:19 | inserting a record adds exactly that record to the multiset of records |
| OperationLog.InsertSorted | internal/storage/postgres/operation.go:19 | inserting into a list sorted by user id keeps it sorted |
| OperationLog.SortByUser | internal/storage/postgres/operation.go:19 | `ORDER BY user_id`: the result is sorted by user id and is a permutation of the input |
| OperationService.ParseMonth | internal/service/operation.go:39-44 | accepted iff the text is four digits, `-`, two digits naming a month 01..12 and nothing else; the year is 0..9999; any other text gives ErrParsingDate |
| OperationService.ParseMonthRoundTrip | internal/service/operation.go:40-41 | every year 0..9999 and month, written in the layout, parse back to themselves |
| OperationService.ParseMonthCanonical | internal/service/operation.go:40-41 | an accepted date is the canonical rendering of what it parses to, so the parse is one-to-one |
| OperationService.CsvRowFields | internal/service/operation.go:97-102 | a data row (`OperationService.CsvRow`) has four cells: the decimal user id reading back as the id, the slug, the action, and the date as "YYYY-MM-DD HH:MM:SS" whose fields read back as the instant's |
| OperationService.CreateCSVFile | internal/service/operation.go:79-110 | the rows written are the header `["user id","segment_slug","action","date"]`, then one row per operation in input order |
| OperationService.ReportFileName | internal/service/operation.go:80 | the file name is `path + id + ".csv"`, and path and id are read back from it |
| OperationService.ReportURLPath | internal/service/operation.go:73 | the URL path is `/api/v1/users/report/` followed by the id, and the id is read back from it |
| OperationService.ReportNamesAgree | internal/service/operation.go:51-80 | the file a report is written to and the path it is served under carry the same id |
| OperationService.CreateCSVReportAndURL | internal/service/operation.go:39-77 | a date outside the layout gives ErrParsingDate before the store is read; otherwise the report's rows are the header and one row per operation of that month ordered by user id, in a file and URL path carrying the same id |
| Config.StringToZapLogLevel | cmd/dynamic-user-segmentation/config.go:111-130 | no error iff the lower-cased text is one of the seven level names, giving the level of that name; anything else gives InvalidLevel and "level: " + the level error |
| Config.LowerOfUpper | cmd/dynamic-user-segmentation/config.go:112 | lower-casing after upper-casing is lower-casing |
| Config.LevelCaseInsensitive | cmd/dynamic-user-segmentation/config.go:111-130 | the parser ignores letter case |
| Config.LevelRoundTrip | cmd/dynamic-user-segmentation/config.go:111-130 | every real level's name, in lower or upper case, parses back to that level |
| Config.ZapFailingCheck | cmd/dynamic-user-segmentation/config.go:93-109 | no failing check iff encoding is json or console and both output paths are non-empty; otherwise the first failing check in source order |
| Config.ValidateZapLoggerConfig | cmd/dynamic-user-segmentation/config.go:93-109 | no error iff every check holds; otherwise the error text of the first failing check, in source order |
| Config.PostgresFailingCheck | cmd/dynamic-user-segmentation/config.go:174-215 | no failing check iff host, username, password and database name are non-empty, 0 <= port <= 65535, the SSL mode is one of the six, and the four pool settings are strictly positive; otherwise the first failing check in source order |
| Config.ValidatePostgresConfig | cmd/dynamic-user-segmentation/config.go:174-215 | no error iff every check holds; otherwise the error text of the first failing check, in source order |

## Left out

- Driver errors (failed `Begin`, `Exec`, `Query`, `Scan`, `Commit`) are not modelled. Only the constraint failures the code handles itself are modelled: the foreign key and a delete that affects no row. In `UpdateUserSegments` and `AutoAddUserSegments` a driver error after `Begin` rolls the transaction back like the modelled errors do. `CreateSegment` defers `tx.Rollback` before checking the error of `Begin` (internal/storage/postgres/segment.go:12-13), so a failed `Begin` there calls `Rollback` on a nil transaction; that path is not modelled.
- Memberships.AddUserSegment requires the pair to be absent. Both callers guarantee this: the update loop checks first, and auto-enrollment picks users outside the segment. So the unique-key violation path of the insert cannot be reached from the modelled operations.
- Memberships.AutoAddUserSegments and Postgres.Storage.AutoAddUserSegments have no error result. Every slug they enroll comes from the segments table, so the foreign key cannot fail. Driver errors are left out as above.
- Memberships.AutoAddTarget computes `math.Floor(float64(N) * float64(p) / 100)` as integer division `N * p / 100`. For the non-negative operands involved the two agree; float64 rounding for very large N is not modelled.
- Postgres.Storage.GetOperations takes the (year, month) that `time.Parse` yields instead of a `time.Time`. The window end `AddDate(0, 1, 0).Add(-time.Nanosecond)` is written in closed form as the last nanosecond of the month (`DateTimes.MonthEnd`); general calendar arithmetic is not modelled. Instants are UTC calendar fields; time zones are not modelled.
- Postgres.Storage.GetOperations specifies `ORDER BY user_id` by one particular sorted permutation, an insertion sort that keeps log order among equal user ids. PostgreSQL fixes no order among equal user ids, so the model's order there is only one of the orders the database may return.
- `time.Now()` and the report uuid are parameters (`now`, `id`). The host name, IP lookup, configured port and URL scheme are I/O; only the URL path is modelled. File creation and the CSV writer's byte-level quoting are not modelled; the report is the list of rows handed to the writer.
- Strings.ToUpper and Strings.ToLower map only the ASCII letters. Go's Unicode case tables are not modelled, so a non-ASCII lower-case letter counts as upper-case here.
- The percentage is the type `Percent` (0..100). In Go, validatePercentage returns an `int` and the storage's `CreateSegment` takes a `uint8`. Validation limits the value to 0..100, which both types hold, so no wrap-around is modelled.
- The random number drawn in the service's UpdateUserSegments is not passed on, because the storage function takes no such argument. The segment service passes storage the slug and percentage that `Storage.CreateSegment` actually takes.
- The storage method `DeleteSegment` is not part of this model, and neither is the report download (`GetReportByID`). The HTTP handlers, the viper reads and the `time.ParseDuration` parsing of the pool durations are also left out: the durations reach the model as nanosecond counts.
- Config.ValidatePostgresConfig rejects zero pool settings (`<= 0`), although their messages say "cannot be less than zero". The model follows the comparison in the code.
- Config.ValidateZapLoggerConfig and Config.ValidatePostgresConfig are modelled as two parts: a function naming the first failing check, and a function mapping that check to its message. Both parts together match each source if-chain, check for check.
- Concurrency and isolation levels are not modelled: each transaction is one sequential step on the state.
