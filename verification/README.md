# Equipment-loan register: a Dafny model

This project models the loan ledger of an equipment-lending server. Students
borrow equipment items. Each loan is a row of the `register` table: who
borrowed what, on which date, the entry time, an optional departure (return)
time and a comment. The model covers the register routes and the student
routes whose rows the register reads join against.

The database is three in-memory tables, kept as maps from id to record:
`register`, `student` and `equipment`. Each table's auto-increment counter is
kept beside it. Every route handler is a pure transition. It takes the
database, the request's path ids and JSON body, and a `Fault` that says
whether the store throws. It yields the status code, the response payload and
the new database. The two list routes return rows in an order the store
chooses, so they are methods that scan a table in any order.

Modules, one per file:

- `Json` (`json.dfy`): request bodies as maps from key to JSON value. A key the
  body lacks is bound into SQL as NULL.
- `TimeOfDay` (`time_of_day.dfy`): the `^\d{2}:\d{2}:\d{2}$` shape, with a
  print/parse round trip.
- `Joi` (`joi.dfy`): object schemas as data. Rules are checked in declaration
  order and the first failing key is reported. Undeclared keys are refused.
  `string()` refuses the empty string. `number()` refuses numbers beyond the
  largest safe integer, 2^53 - 1, and `integer()` refuses fractions.
- `Store` (`store.dfy`): the rows, the database and its id invariant, and the
  response shapes. It also holds the 500 path of every catch block and the
  table scan.
- `Registers` (`registers.dfy`): the register schemas and the six register
  routes.
- `Students` (`students.dfy`): the student schema and the five student routes.
- `Ledger` (`ledger.dfy`): properties that span several requests.

Notes on the code's behaviour:

- Create does not check that the student and the equipment exist. Only the
  store may refuse the insert, and that is a `Fault`.
- Update computes the update schema's verdict and ignores it. Every body is bound as it came, and a missing key
  becomes NULL.
- Get-one answers with the array of selected rows, not a single row.
- Update and delete match on the register's own `student_id` column. They do
  not join, so they reach loans whose student no longer exists. Get-one joins.

## Model

| member | source | states |
|---|---|---|
| TimeOfDay.ShapeIsTwoDigitFields | src/routes/registers.ts:10-15 | A string has the time shape exactly when it prints from three two-digit fields, whatever their values. |
| TimeOfDay.FormatParse | src/routes/registers.ts:11 | Printing the fields read from a shaped string gives back that string. |
| TimeOfDay.ShapeNotRange | src/routes/registers.ts:14 | "99:99:99" has the shape and reads as 99, 99, 99. A one-digit hour and a trailing space do not have the shape. |
| Joi.FirstFailing | src/routes/registers.ts:28-31 | The reported key is that of a failing rule with every earlier rule passing. No key is reported exactly when every rule passes. |
| Joi.Validate | src/routes/registers.ts:6-17 | A body is accepted exactly when every declared rule passes and it has no undeclared key. A refusal names the first failing declared key in declaration order. An undeclared key is refused without a name, and only when every declared rule passes. |
| Registers.CreatedLoanWellFormed | src/routes/registers.ts:34-46 | The row an accepted create writes has a safe-integer `equipment_id`, an `entry_time` of the time shape, and a `departure_time` that is NULL or of the time shape. Update does not keep this, since it binds its body unvalidated. |
| Store.ScanIds | src/routes/students.ts:49-50 | A full scan lists every id of the table exactly once and nothing else, in no fixed order. |
| Registers.CreateSchemaMeaning | src/routes/registers.ts:6-17 | The create schema accepts a body exactly when all of these hold: `student_id` and `equipment_id` are safe integers, `date` is a date, and `entry_time` has the time shape. `departure_time` is absent, null or shaped. `comment` is absent, null or a non-empty string. No other key is present. |
| Registers.Create | src/routes/registers.ts:27-58 | An unacceptable body gets 400 and writes nothing; the payload is the schema's error, the first failing key. A store fault gets 500 and writes nothing. Otherwise the answer is 201 with the counter's id. That id was in no row, and it becomes the only new row. The row holds the six submitted fields, with missing optional fields as NULL. The other tables and rows are unchanged and the database invariant is kept. |
| Registers.UpdateSchema | src/routes/registers.ts:19-25 | The update schema declares exactly the five updatable keys. Of them `equipment_id`, `date` and `entry_time` are required. None of them allows an explicit null. |
| Registers.UpdateSchemaMeaning | src/routes/registers.ts:19-25 | The update schema accepts a body exactly when all of these hold: `equipment_id` is a safe integer, `date` is a date, and `entry_time` is a non-empty string with no shape imposed. `departure_time` and `comment` are absent or non-empty strings. No other key is present. |
| Registers.CreateRejectsBadTimes | src/routes/registers.ts:10-15 | A missing or misshapen `entry_time`, or a present, non-null, misshapen `departure_time`, gives 400 and an unchanged database. |
| Registers.ProjectLocal | src/routes/registers.ts:63-80 | A joined row is read at query time from the register row, the student row it names and the equipment row it names. Two databases that agree on those three rows project it alike, whatever else differs. |
| Registers.List | src/routes/registers.ts:61-90 | 200 with exactly the projected register ⋈ student ⋈ equipment rows, one per joinable register, as many as there are joinable registers. An empty join is still 200. A store fault gives 500. |
| Registers.GetOne | src/routes/registers.ts:93-136 | 200 exactly when a joined row has both the given student id and the given register id. The answer then holds that one row. Every miss is 404 "Student not found". |
| Registers.Matching | src/routes/registers.ts:147-149 | The composite key selects at most the row with the given id, and that row only when its `student_id` is the given one. |
| Registers.Overwrite | src/routes/registers.ts:147-148 | The SET list never changes a row's `student_id`. |
| Registers.Update | src/routes/registers.ts:139-174 | 200 exactly when a row matches both keys. Only that row changes: its five columns take the body's values (NULL where missing), and its id and `student_id` stay. No match gives 404 "Register not found" and no change. A fault gives 500 and no change. |
| Registers.Delete | src/routes/registers.ts:178-200 | 200 exactly when a row matches both keys; it removes that row alone. No match gives 404 "Register not found" and no change. |
| Registers.DeleteAll | src/routes/registers.ts:203-214 | 200 and an empty register table. Students, equipment and the id counters are unchanged. |
| Students.StudentSchemaMeaning | src/routes/students.ts:6-10 | The student schema accepts a body exactly when `name`, `id_number` and `email` are non-empty strings, the email is valid, and no other key is present. |
| Students.Create | src/routes/students.ts:12-44 | An unacceptable body gets 400 with the schema's error (the first failing key) and inserts nothing. Otherwise the answer is 201 with a fresh positive id whose row holds the three fields. Other rows and tables are unchanged. |
| Students.List | src/routes/students.ts:47-58 | 200 with every student row exactly once. |
| Students.GetOne | src/routes/students.ts:61-77 | 200 with the row of that id exactly when it exists, otherwise 404 "Alumno not found". |
| Students.Update | src/routes/students.ts:80-109 | The body is not validated. 200 exactly when the id exists, and then only that row's three columns change: they take the body's values, or NULL where missing. Otherwise 404 "Alumno not found" and no change. |
| Students.Delete | src/routes/students.ts:112-128 | 200 exactly when the id exists, and then only that row goes. Otherwise 404 "Alumno not found" and no change. |
| Ledger.CreateThenGetOne | src/routes/registers.ts:44-126 | After a successful create for an existing student and equipment, get-one by (student id, new id) gives 200. The one row it returns joins that student's and equipment's columns with the submitted loan fields. |
| Ledger.CreateExtendsJoin | src/routes/registers.ts:44-82 | On a database that keeps the invariant, a create adds exactly its own row to the join and leaves every other joined row as it was. |
| Ledger.UpdateThenGetOne | src/routes/registers.ts:97-166 | After an update of a matching loan that still joins, get-one shows the new entry and departure times. This is how a loan is closed, or reopened. |
| Ledger.UpdateIgnoresSchema | src/routes/registers.ts:141-142 | Two bodies that agree on the five bound columns give the same update outcome, whatever the update schema says of either. |
| Ledger.EmptyBodyUpdate | src/routes/registers.ts:141-160 | The update schema refuses the empty body for `equipment_id`. Yet an update with it succeeds on a matching row and sets all five columns to NULL. |
| Ledger.DeleteThenGetOne | src/routes/registers.ts:122-190 | After a successful delete, get-one of the same pair is 404 "Student not found". |
| Ledger.GetOneWrongStudentSaysStudentNotFound | src/routes/registers.ts:116-124 | Suppose the student exists and the register exists and joins, but under another student. Get-one still answers 404 "Student not found". |
| Ledger.DeleteAllIdempotent | src/routes/registers.ts:203-206 | A second delete-all answers the same and changes nothing. The join is empty afterwards. |
| Ledger.DeleteAllThenList | src/routes/registers.ts:61-82 | Delete-all followed by list answers 200 with no rows. |
| Ledger.IdsNotReusedAfterDeleteAll | src/routes/registers.ts:44-48 | Delete-all keeps the auto-increment counter, so a create right after it returns no id of a register the delete-all removed. |
| Ledger.ApplyAdvancesCounter | src/routes/registers.ts:44-48 | No write route lowers the register id counter or breaks the id invariant. A successful loan create returns the counter and advances it by one. |
| Ledger.LoanIdsIncrease | src/routes/registers.ts:44-48 | Over any run of writes, deletes and delete-alls included, the ids that successful loan creates return strictly increase. Each lies above every id the table held when the run began, so no id is handed out twice. |
| Ledger.DeleteStudentHidesLoans | src/routes/students.ts:115-120 | Deleting a student leaves the register table unchanged. That student's loans drop out of the join, and every other joined row stays. |
| Ledger.StudentCreateThenGetOne | src/routes/students.ts:26-66 | A created student, read back by the returned id, shows the submitted name, id number and e-mail. |
| Ledger.StudentUpdateThenGetOne | src/routes/students.ts:64-98 | After an update of an existing student, the next read shows the body's three values (NULL where missing). |
| Ledger.StudentDeleteThenGetOne | src/routes/students.ts:64-117 | After a successful student delete, reading that id is 404 "Alumno not found". |
| Ledger.StudentUpdateShowsInLoans | src/routes/registers.ts:64-79 | The join reads student columns at query time: after a student update, every loan of that student shows the new columns, and no loan enters or leaves the join. |
| Ledger.RegisterRoutesAnswerStoreErrors | src/routes/registers.ts:49-55 | When the store throws, every register route answers 500 and writes nothing. The body is the thrown `Error`'s message, or "Unknown error occurred" for any other thrown value. Create reaches the store only after its body is accepted. |
| Ledger.StudentRoutesAnswerStoreErrors | src/routes/students.ts:102-107 | When the store throws, create (after an accepted body), get, update and delete of a student answer 500 with the thrown message, or "Unknown error occurred", and write nothing. |
| Ledger.ListsAnswerStoreErrors | src/routes/registers.ts:83-89 | Both list routes answer a throwing store with 500 and the thrown message, or "Unknown error occurred". |
| Ledger.LoanScenario | src/routes/registers.ts:27-190 | A loan's life: create the 08:00:00 loan, read it back, close it at 10:00:00, read the closed loan, delete it, and read 404 "Student not found". |

## Left out

- Value conversion by the validation library is not modelled. Numeric strings
  are not turned into numbers, and dates are not turned into date objects.
  Values are validated and stored as submitted, so a numeric string counts as
  an invalid integer here.
- What `date()` and `email()` accept are parameters (`isDate`, `isEmail`). The
  model does not parse dates or e-mail addresses.
- A 400 payload names the first failing declared key, or says an undeclared
  key was sent. It does not carry the library's message text, and it does not
  name the undeclared key.
- Bodies are JSON objects. Array bodies and the object-type error they would
  get are not modelled.
- Path ids are integers. MySQL's conversion of the path strings to numbers
  (for example "5abc" to 5) is not modelled.
- Column types are not modelled. Values are stored as bound, so MySQL's
  coercion of a stored value to its column type is absent. Foreign keys,
  NOT NULL and other constraints are absent too. Any statement may be
  refused through `Fault`, which gives 500 and no change. The model does not
  decide which statements the store refuses.
- Affected rows of an update are the matched rows, as the MySQL drivers report
  them by default.
- Auto-increment is a counter starting at 1 that every insert advances by one.
  Gaps left by failed inserts are not modelled.
- Registers.List and Students.List return rows in an order the model leaves
  open, because the queries have no ORDER BY.
- The login route is not modelled. It uses bcrypt comparison and JWT signing,
  which are foreign libraries. Its two 401 answers are for an unknown user
  and a wrong password.
- The equipment list route (`SELECT *`) is not modelled. The equipment table
  is only read, by the join.
- Application bootstrap is not modelled: CORS headers, the JSON body parser,
  route mounting and listening on a port.
- Concurrency is not modelled: awaiting the store, interleaved requests and
  connection pooling. Each handler is one atomic transition.
- There is no check that `entry_time` is no later than
  `departure_time`, because the code never checks it.
