# Attendance service: a verified model

This project models the core of an Express/Sequelize attendance service. Employees clock in once a day with a photo and later clock that record out. HR staff keep a directory of employees with soft deletion. Every handler answers in one JSON envelope behind a bearer-token gate.

The database is replaced by in-memory tables:
- a `seq` of attendance records in the class `AttendanceLog.Ledger`;
- a `seq` of users in the class `Employees.Directory`.

Sequelize's paranoid mode on `User` is modelled: the ordinary lookups see only active rows, while the unique indexes cover every row. The clock is a `now` parameter. The Asia/Jakarta calendar day of an instant is the ledger's abstract `dayOf` function. The server's local date used for employee numbers is a `LocalDate` parameter. Other things the model cannot compute become parameters:
- the JWT verifier is `verify: string -> Option<Claims>`;
- bcrypt is `hash: string -> string`;
- store failures of each insert attempt are `storeFails: nat -> bool`.

Modules, one file each:

| file | module | what it holds |
|---|---|---|
| `outcomes.dfy` | `Outcomes` | `Option` and `Result` |
| `errors.dfy` | `Errors` | the error kinds and their HTTP statuses |
| `text.dfy` | `Text` | the JavaScript built-ins the handlers call (`String(n)`, `parseInt`, `padStart`, `slice(-n)`, `split`/`join`) and the byte-wise string order the store sorts employee numbers by |
| `envelope.dfy` | `Envelope` | `ResponseUtil` and the catch-block pattern every handler shares |
| `query.dfy` | `Query` | filter, `ORDER BY created_at DESC`, and the `page`/`limit`/`offset`/`totalPage` arithmetic |
| `auth.dfy` | `Auth` | `authenticate` and `isHrd` |
| `employees.dfy` | `Employees` | the employee number generator, the create loop, the list/department/get/update/delete handlers |
| `attendance.dfy` | `AttendanceLog` | check-in, check-out, presence, the two history endpoints and the daily counts |

Where the code and its documentation differ, the model follows the code:
- `createSingleEmployee` does not stop after writing 400 "Username already exists". It goes on to the department check and the insert loop. `Employees.Directory.CreateSingleEmployee` reports the early reply and continues.
- `checkOut` never checks the record's day. So a record clocked in yesterday can be clocked out today. `AttendanceLog.CheckOutCounted` shows that this changes today's clock-out count but not today's clock-in count.
- The "not yet" figures of the daily counts are plain subtraction. They go below zero once a soft-deleted employee has clocked in today (`AttendanceLog.DeletedCheckInGoesNegative`).

## Model

| member | source | states |
|---|---|---|
| Errors.Status | src/utils/errorUtil.ts:1-17 | AuthenticationError ends in 401, ValidationError in 400, every other failure in 500, each an if-and-only-if |
| Errors.ClientErrorsAreClassified | src/utils/errorUtil.ts:1-17 | a failure is a 4xx exactly when it is one of the two application error classes |
| Text.NatToString | src/controllers/employeeController.ts:32 | `String(n)` is a non-empty digit string with no leading zero whose decimal value is `n` |
| Text.NatToStringLength | src/controllers/employeeController.ts:32 | a number below 10^k prints in at most k digits |
| Text.PadStart | src/controllers/employeeController.ts:32 | the result is at least `width` long, ends with the input, and all it adds in front is the pad character |
| Text.TakeLast | src/controllers/employeeController.ts:29 | `slice(-n)` is the last `n` characters, or the whole string when it is shorter |
| Text.ParseIntDigits | src/controllers/employeeController.ts:30 | `parseInt` of a non-empty digit string is its decimal value, with or without the radix argument |
| Text.ParseIntRoundTrip | src/controllers/attendanceController.ts:157-158 | `parseInt(String(i)) == i` for every integer, positive or negative |
| Text.LeadingDigits | src/controllers/attendanceController.ts:157-158 | `parseInt` reads the longest prefix of digits and stops at the first character that is not one |
| Text.LeadingZeros | src/controllers/employeeController.ts:32 | zeros padded in front of a digit string keep it digits and keep its value |
| Text.ValueBound | src/controllers/employeeController.ts:32 | a digit string of length k has a value below 10^k |
| Text.LexIrreflexive | src/controllers/employeeController.ts:19 | no string sorts before itself in the store's order |
| Text.LexTransitive | src/controllers/employeeController.ts:19 | the store's string order is transitive |
| Text.LexTotal | src/controllers/employeeController.ts:19 | any two distinct strings are ordered one way or the other |
| Text.LexAsymmetric | src/controllers/employeeController.ts:19 | two strings never sort before each other |
| Text.LexCommonPrefix | src/controllers/employeeController.ts:33 | a shared prefix does not change how two strings compare |
| Text.LexDigits | src/controllers/employeeController.ts:19 | for digit strings of one length, string order and numeric order agree in both directions |
| Text.Split | src/controllers/employeeController.ts:106 | `split(" ")` yields at least one piece and no piece contains the separator |
| Text.SplitHead | src/middlewares/authMiddleware.ts:21 | the first piece is the text before the first separator |
| Text.JoinSplit | src/controllers/employeeController.ts:106-108 | joining the pieces of a split gives the string back |
| Text.SplitJoin | src/controllers/employeeController.ts:106-108 | splitting a join of separator-free pieces gives the pieces back |
| Text.JoinSameShape | src/controllers/employeeController.ts:106-108 | pieces of the same lengths join to strings of the same length |
| Envelope.ApiResponse.Keys | src/utils/responseUtil.ts:1-5 | `success` is always a key; `data`, `message` and `meta` are keys exactly when present |
| Envelope.Success | src/utils/responseUtil.ts:8-15 | `success` is true and carries the data; `message` and `meta` are keys exactly when the argument is truthy |
| Envelope.Error | src/utils/responseUtil.ts:17-22 | `success` is false, the message is always a key (even ""), there is no data |
| Envelope.ValidationError | src/utils/responseUtil.ts:25-27 | the same object as `error` with that message |
| Envelope.NotFound | src/utils/responseUtil.ts:30-32 | a failure whose message is the resource followed by " not found" |
| Envelope.Unauthorized | src/utils/responseUtil.ts:35-39 | "Unauthorized access" when no argument is given, otherwise the argument |
| Envelope.ServerError | src/utils/responseUtil.ts:42-46 | "Internal server error" when no argument is given, otherwise the argument |
| Envelope.FailureHelpersAgree | src/utils/responseUtil.ts:24-46 | the four failure helpers all equal `error` of their message |
| Envelope.EmptyMessage | src/utils/responseUtil.ts:12 | an empty message is dropped from a success body and kept in a failure body |
| Envelope.Respond | src/controllers/attendanceController.ts:49-58 | success answers the handler's status with `success(data, message, meta)`; a ValidationError answers a bare 400 `{ message }`; anything else answers 500 with `error("Internal server error")` |
| Envelope.RespondStatus | src/controllers/attendanceController.ts:52-58 | a caught failure ends in the status its kind carries, bare exactly for the 4xx ones |
| Query.Filter | src/controllers/attendanceController.ts:161 | the kept rows are rows of the table that satisfy the `where`, and every such row is kept |
| Query.FilterAppend | src/controllers/attendanceController.ts:35-39 | filtering a table with one row appended adds that row exactly when it matches |
| Query.FilterUpdateCount | src/controllers/attendanceController.ts:80-82 | replacing one row changes the match count by the old and new rows' contributions |
| Query.First | src/controllers/attendanceController.ts:21-29 | `findOne`: the first row that matches, or none exactly when no row matches |
| Query.FirstUpdate | src/controllers/attendanceController.ts:80-82 | replacing a row by one that matches equally leaves `findOne`'s answer unchanged |
| Query.Insert | src/controllers/attendanceController.ts:162 | inserting into a newest-first sequence gives a newest-first sequence with one more row |
| Query.InsertPermutes | src/controllers/attendanceController.ts:162 | inserting adds exactly that row, as a multiset |
| Query.SortDesc | src/controllers/attendanceController.ts:162 | `ORDER BY created_at DESC` gives a permutation of its input, newest first |
| Query.Newest | src/controllers/attendanceController.ts:160-165 | the result is a permutation of the matching rows (each matching row appears, nothing else does), newest first |
| Query.QueryInt | src/controllers/attendanceController.ts:157-158 | `parseInt(q)` or the default `d`: a missing, unparsable or zero parameter gives the default, any other the parsed value |
| Query.Params | src/controllers/attendanceController.ts:157-159 | page and limit are nonzero and offset is `(page - 1) * limit` |
| Query.QueryIntDefaults | src/controllers/attendanceController.ts:157-158 | a missing parameter gives the default; a printed number reads back as itself, 0 as the default |
| Query.QueryIntUnparsable | src/controllers/attendanceController.ts:157-158 | a parameter with no digits, such as "abc", gives the default |
| Query.CeilDiv | src/controllers/attendanceController.ts:171 | `Math.ceil(count / limit)` is the least number of pages that hold `count` rows |
| Query.Slice | src/controllers/attendanceController.ts:163-164 | the window is the rows from `offset` on, at most `limit` of them, in order |
| Query.Serve | src/controllers/attendanceController.ts:160-173 | fails with a store error exactly when offset or limit is negative; otherwise meta echoes page and limit, counts every row, and the rows are the window |
| Query.Paginate | src/controllers/attendanceController.ts:157-173 | served exactly when the parsed `page` and `limit` are both positive, otherwise a 500 store error; the meta is `{ page, limit, totalPage: ceil(total / limit), total }` and the rows are the `limit` rows from `(page - 1) * limit` on |
| Query.ServeOkIff | src/controllers/attendanceController.ts:157-165 | a page is served exactly when both page and limit are positive |
| Query.PageMembers | src/controllers/attendanceController.ts:160-173 | a served page is within its limit, counts every row and holds only rows of the ordered result |
| Query.PageSorted | src/controllers/attendanceController.ts:162-165 | a page of a newest-first result is newest first |
| Query.ServeNonEmptyIff | src/controllers/attendanceController.ts:160-173 | a page holds rows exactly when its number is within 1..totalPage |
| Query.PageNonEmptyIff | src/controllers/attendanceController.ts:157-173 | the same, in terms of the query parameters |
| Auth.BearerToken | src/middlewares/authMiddleware.ts:21 | the token is the space-free text after "Bearer ", up to the next space or the end |
| Auth.BearerTokenRoundTrip | src/middlewares/authMiddleware.ts:21 | a space-free token is read back from "Bearer " + token, whatever follows after a space |
| Auth.SpaceFreePrefix | src/middlewares/authMiddleware.ts:21 | the token is determined uniquely by the header |
| Auth.CheckBearer | src/middlewares/authMiddleware.ts:16-28 | missing or non-Bearer header exactly gives "No token provided"; success exactly when the verifier accepts the token, with its claims; a failure is always a 401 |
| Auth.HrdGate | src/middlewares/authMiddleware.ts:36-39 | lets the request through exactly when the role is "hrd", otherwise 403 "Access denied" |
| Auth.Request.Authenticate | src/middlewares/authMiddleware.ts:11-29 | on success `req.user` is the claims and `next` ran once; on failure it throws that error and changes nothing |
| Auth.Request.IsHrd | src/middlewares/authMiddleware.ts:31-40 | a non-hrd role gets the 403 reply and `next` does not run; "hrd" runs `next` once and writes nothing |
| Employees.Pad2 | src/controllers/employeeController.ts:13-14 | a number below 100 pads to its tens and units digits |
| Employees.LastDigit | src/controllers/employeeController.ts:12 | the last character `String(n)` prints is the units digit |
| Employees.YearDigits | src/controllers/employeeController.ts:12 | `slice(-2)` of a year of two or more digits is its tens and units digits |
| Employees.DatePrefixDigits | src/controllers/employeeController.ts:12-15 | for a valid date the prefix is six digits: yy, mm, dd |
| Employees.GenerateEmployeeNo | src/controllers/employeeController.ts:27-33 | the number starts with the date prefix and has at least four characters after it |
| Employees.FirstOfDay | src/controllers/employeeController.ts:27-33 | with no number yet for the day, the number is the prefix followed by "0001" |
| Employees.PadFour | src/controllers/employeeController.ts:32 | a sequence below 10000 pads to exactly four digits with the same value |
| Employees.SequenceOfDigits | src/controllers/employeeController.ts:28-32 | four trailing digits give their value plus one, padded to four places |
| Employees.NextSequence | src/controllers/employeeController.ts:28-32 | below 9999 the next sequence is four digits, one more in value, and sorts after the old one |
| Employees.NextNumber | src/controllers/employeeController.ts:18-33 | below 9999 the next number keeps the prefix and length, is one more in its last four digits, and sorts after the latest |
| Employees.SamePrefix | src/controllers/employeeController.ts:33 | a larger four-digit tail after the same prefix makes a larger number |
| Employees.SequenceAfterNines | src/controllers/employeeController.ts:28-32 | after "9999" the sequence is "10000" |
| Employees.Overflow | src/controllers/employeeController.ts:18-33 | after prefix + "9999" the next number is prefix + "10000", which sorts before the latest, so the day's latest never moves again |
| Employees.SequenceOfNonDigits | src/controllers/employeeController.ts:29-32 | four trailing non-digits make `parseInt` NaN and the sequence "0NaN" |
| Employees.NaNSequence | src/controllers/employeeController.ts:28-33 | such a latest number makes the next number prefix + "0NaN" |
| Employees.LatestWithPrefix | src/controllers/employeeController.ts:18-25 | none exactly when no active row has the prefix; otherwise the number of such a row, at or above every other one in the store's order |
| Employees.NextEmployeeNo | src/controllers/employeeController.ts:9-34 | the number issued next starts with the day's prefix |
| Employees.FreshEmployeeNo | src/controllers/employeeController.ts:18-33 | when all of the day's numbers are active and four digits below 9999, the issued number is held by no row |
| Employees.BeyondLatest | src/controllers/employeeController.ts:18-25 | a prefixed number above the latest active one is held by no row, when only active rows have the prefix |
| Employees.AttemptFault | src/controllers/employeeController.ts:147-155 | `User.create` fails exactly when the store is down, the username is missing (NOT NULL), the role is outside the ENUM, or the username or number is in some row |
| Employees.InsertKeepsWellFormed | src/controllers/employeeController.ts:147-155 | a successful insert keeps ids, usernames and numbers unique and columns in their ENUMs |
| Employees.DeletedUsernameBlocked | src/controllers/employeeController.ts:129-155 | a username held only by a soft-deleted row passes the duplicate check yet every insert fails |
| Employees.DeletedNumberReissued | src/controllers/employeeController.ts:18-25 | a number held only by a soft-deleted row is issued again, and the insert then fails |
| Employees.QueryText | src/controllers/employeeController.ts:48-49 | the parameter or "" is non-empty exactly when the parameter is truthy, and then equals it |
| Employees.Listed | src/controllers/employeeController.ts:54-76 | a permutation of the matching active rows: every matching row is in it and nothing else, newest first |
| Employees.ListEmployees | src/controllers/employeeController.ts:47-85 | served exactly when page and limit are positive; the meta is `{ page, limit, totalPage, total }` over all matching rows; the rows are the summaries of the `limit` matching rows, newest first, from `(page - 1) * limit` on, each an active row matching the search and the department |
| Employees.Summaries | src/controllers/employeeController.ts:72 | one summary per row, in order |
| Employees.SummariesOf | src/controllers/employeeController.ts:70-76 | each summary of a matching row is the summary of some matching row |
| Employees.FindActive | src/controllers/employeeController.ts:188-192 | an active row with the id, or none exactly when no active row has it |
| Employees.GetEmployeeById | src/controllers/employeeController.ts:182-203 | null data exactly when no active row has the id, otherwise that row's selected columns |
| Employees.ToUpper | src/controllers/employeeController.ts:107 | lower-case ASCII letters become upper case; every other character is kept |
| Employees.Capitalize | src/controllers/employeeController.ts:107 | the first character is upper-cased, the rest is kept, the length is kept |
| Employees.CapitalizeAll | src/controllers/employeeController.ts:107 | each word capitalised, in order |
| Employees.LabelLength | src/controllers/employeeController.ts:105-108 | a label is as long as the department name |
| Employees.LabelWords | src/controllers/employeeController.ts:105-108 | a label has as many words as the name, each the capitalised word |
| Employees.LabelIdempotent | src/controllers/employeeController.ts:105-108 | labelling a label changes nothing |
| Employees.ActiveDepartments | src/controllers/employeeController.ts:97-100 | the departments of the active rows, each exactly once |
| Employees.DepartmentOptions | src/controllers/employeeController.ts:95-112 | fails exactly when an active row has no department (`split` on null); otherwise one option per grouped department with its label |
| Employees.DepartmentOptionsDistinct | src/controllers/employeeController.ts:97-100 | no department is listed twice |
| Employees.DepartmentOptionsSound | src/controllers/employeeController.ts:97-109 | every listed department belongs to an active employee |
| Employees.DepartmentOptionsComplete | src/controllers/employeeController.ts:97-109 | every active employee's department is listed |
| Employees.Options | src/controllers/employeeController.ts:102-110 | one `{ value, label }` per department, the label being the capitalised value |
| Employees.Patched | src/controllers/employeeController.ts:232 | only name, email, department and the update time change; an absent field keeps its value |
| Employees.SoftDeleted | src/controllers/employeeController.ts:258 | only `deleted_at` and the update time change, and the row is no longer active |
| Employees.DeletedNotFound | src/controllers/employeeController.ts:247-256 | after a delete no active row has the id, so get answers null and update and delete answer "not found" |
| Employees.DeletedNotListed | src/controllers/employeeController.ts:54-56 | after a delete the employee is on no page of the list |
| Employees.DeletedInactive | src/controllers/employeeController.ts:258 | with unique ids, every row carrying the deleted id is inactive |
| Employees.NoSummaryOfInactive | src/controllers/employeeController.ts:54-56 | a listing never shows an id whose rows are all inactive |
| Employees.ClashExhaustsRetries | src/controllers/employeeController.ts:144-168 | once the username or the number clashes, all five tries fail, nothing changes and the unique violation is thrown |
| Employees.Directory.CreateSingleEmployee | src/controllers/employeeController.ts:122-172 | a missing username fails the lookup with a 500 and no reply; otherwise reports the active-duplicate reply without stopping; a missing password fails the hash with a 500; an invalid department fails before any insert; otherwise the loop's outcome; the table changes only through the loop |
| Employees.Directory.InsertWithRetries | src/controllers/employeeController.ts:136-168 | at most five tries; all but the last failed; success appends exactly one row; after five failures the last fault is thrown and the table is unchanged |
| Employees.Directory.Insert | src/controllers/employeeController.ts:147-155 | raises the fault `AttemptFault` names and changes nothing, or appends exactly the new row and returns it |
| Employees.Directory.UpdateEmployee | src/controllers/employeeController.ts:213-234 | "Employee not found" for a missing or deleted id; a department outside the ENUM is refused; otherwise only that row is patched |
| Employees.Directory.DeleteEmployee | src/controllers/employeeController.ts:244-260 | "Employee not found" exactly for a missing or deleted id, otherwise only that row is soft-deleted |
| AttendanceLog.AppendKeepsOnePerDay | src/controllers/attendanceController.ts:21-39 | appending a record for a user with none on its day keeps one record per user and day |
| AttendanceLog.TodayRecordUnique | src/controllers/attendanceController.ts:21-33 | under that invariant a user's record of a day is unique |
| AttendanceLog.Owned | src/controllers/attendanceController.ts:68-70 | the caller's record with that id, or none exactly when the caller has no record with that id |
| AttendanceLog.CheckedOut | src/controllers/attendanceController.ts:80-82 | only `time_out` and the update time change, `time_out` becomes now |
| AttendanceLog.ForeignRecordNotFound | src/controllers/attendanceController.ts:68-74 | another user's record is never found, whatever its id |
| AttendanceLog.SecondCheckOutFails | src/controllers/attendanceController.ts:76-82 | after a check-out the same request finds the same record, now checked out |
| AttendanceLog.CheckOutKeepsInvariants | src/controllers/attendanceController.ts:80-82 | a check-out keeps ids unique and one record per user and day |
| AttendanceLog.Channel.Publish | src/utils/rabbitMq.ts:22-29 | the event is sent exactly when the channel is ready, otherwise dropped |
| AttendanceLog.Ledger.CheckIn | src/controllers/attendanceController.ts:14-51 | no file is a 500; a record today is "You have already clocked in today" and changes nothing; otherwise exactly one record is appended with the caller, now, no clock-out and "/uploads/" + filename, and the event is published; one record per user and day is kept |
| AttendanceLog.Ledger.CheckOut | src/controllers/attendanceController.ts:61-86 | "Attendance not found" exactly when the caller has no record with that id; "Attendance already checked out" when it is set; otherwise only that record gets `time_out` = now |
| AttendanceLog.Ledger.IsPresenceToday | src/controllers/attendanceController.ts:96-142 | clocked in exactly when the caller has a record with `time_in` today; clocked out decided independently by `time_out`; the id is present exactly when clocked in and names such a record |
| AttendanceLog.PresenceNamesTheRecord | src/controllers/attendanceController.ts:105-126 | under one record per user and day, the id reported is that of the caller's only record of today |
| AttendanceLog.OwnHistory | src/controllers/attendanceController.ts:152-174 | served exactly when page and limit are positive; the meta is `{ page, limit, totalPage, total }` over the caller's records; the rows are the `limit` records of the caller, newest first, from `(page - 1) * limit` on |
| AttendanceLog.JoinUsers | src/controllers/attendanceController.ts:214-234 | fails exactly when some record's employee is missing or soft-deleted; otherwise each row is its record joined to the active employee with its `user_id` |
| AttendanceLog.AllHistory | src/controllers/attendanceController.ts:184-247 | the newest-first page of all records joined to their employees, counting every record; a store error or a failed join fails the page |
| AttendanceLog.DeletedEmployeeBreaksHistory | src/controllers/attendanceController.ts:203-234 | soft-deleting an employee with a record on the page makes that page fail with a 500 |
| AttendanceLog.AttendancesToday | src/controllers/attendanceController.ts:263-285 | counts active employees, every record clocked in today and every record clocked out today, and the two differences |
| AttendanceLog.ActiveIds | src/controllers/attendanceController.ts:263 | the ids of active employees, no more of them than active rows |
| AttendanceLog.ClockInsBound | src/controllers/attendanceController.ts:265-272 | with one record per user and day, today's records of a set of users are at most that many |
| AttendanceLog.NotYetClockedInNonNegative | src/controllers/attendanceController.ts:263-283 | when everyone who clocked in today is still active, "not yet clocked in" is never negative |
| AttendanceLog.DeletedCheckInGoesNegative | src/controllers/attendanceController.ts:263-283 | a soft-deleted employee's check-in today makes "not yet clocked in" -1 for a one-row table |
| AttendanceLog.CheckInCounted | src/controllers/attendanceController.ts:265-281 | a check-in adds one to today's clock-ins and changes neither the clock-outs nor the employee count |
| AttendanceLog.CheckOutCounted | src/controllers/attendanceController.ts:274-281 | a check-out adds one to the clock-outs of its day, whatever day the record was clocked in, and leaves the clock-ins alone |

## Left out

- Time zones and dates: dayjs and `new Date()` are replaced by `now`, `dayOf` and `LocalDate`. The model does not check that the Jakarta "today" matches the server-local window `dayjs(today).startOf("day")`. It also treats the two clock reads of one request as the same instant.
- Time formatting: the ISO strings of the history rows and of the queue event are left out. The model carries the instants themselves.
- The store: MySQL collation (case-insensitive `LIKE`), `%` and `_` wildcards inside the search text, and the order of ties and of `GROUP BY` groups are not modelled. Search is a case-sensitive substring test, and ties keep table order.
- Explicit `null` body fields: a body field is either a value or left out, and a field sent as `null` is read as left out. In an update body a `null` would set the column to NULL, while the model keeps the old value. Left-out `username`, `password` and `name` in a create body are modelled, with the lookup failure, the bcrypt failure and the NULL name they cause.
- Non-numeric path ids (`req.params.id`): ids are natural numbers.
- Column lengths: the 100-character limits on `email` and `no_employee` are not modelled.
- bcrypt, JWT signature and expiry checks, multer's disk storage and Express routing: foreign code, replaced by the `hash` and `verify` parameters and the uploaded file name.
- RabbitMQ: only whether the channel is ready is modelled. An exception from `sendToQueue` is not.
- Concurrency: races between the check and the insert are out of scope; the model is sequential.
- The double send in catch blocks: the 500 written after a 400 fails because the response is already sent. Only the 400 the client sees is modelled.
- Number precision: integers are unbounded, so numbers beyond 2^53 and `String` printing with an exponent are not modelled.
- Employees.DatePrefixDigits: not proved for years below 10, where `slice(-2)` is a single digit.
- Employees.Directory.InsertWithRetries: it takes the number generator as a parameter. Since a failed try changes nothing, every try generates the same number.
- Auth.Request.IsHrd: requires that `authenticate` set `req.user`. A TypeError when it is absent is not modelled.
- Employees.ToUpper: maps ASCII letters only; `toUpperCase` on other scripts is not modelled.
