# Student record service: a Dafny model

This project models the record service in `app.py` of a small student-management
system. The service is an HTTP API over one SQLite table, `students`. Each row has
an auto-increment `student_id` and four business columns: `first_name`, `last_name`,
`dob` and `amount_due`. Five handlers act on the table:

- create (`POST /students`)
- list (`GET /students`)
- get (`GET /students/<id>`)
- partial update (`PUT /students/<id>`)
- delete (`DELETE /students/<id>`)

Without Flask and SQLite, what remains is a state machine. The state is a map from
id to row plus the AUTOINCREMENT counter (`nextId`, one more than the largest id ever
issued).

- `students.dfy`, module `Students`: the data model and one pure function for each
  of create, get, update and delete. Each function maps the table and the request
  to the new table and the HTTP response (status and `{"message"}`/`{"error"}`/record
  payload, with the source's exact message strings). List is specified by the
  predicate `IsListing`, which says when a sequence of records is an answer for
  the stored rows, in any order. The file also holds lemmas relating the
  handlers: get after create, get after update, get/update/delete
  after delete, create is not idempotent, deleting shrinks the listing by one.
- `service.dfy`, module `StudentService`: the table as the program holds it. This is
  class `StudentTable` with fields `rows` and `nextId` that the handler methods update
  in place. `Create`, `Get`, `Update` and `Delete` are proved to update the table and
  reply exactly as the handler function of the same name says. `ListAll` is proved
  to reply 200 with a listing of the stored rows. `Update` builds its SET clause with
  successive appends, as the source does, and writes the row once, after all
  checks. `ListAll` builds its answer in an append loop. `Walkthrough` is a client
  that runs one student's life on a new database.
- `traces.dfy`, module `StudentTraces`: runs of requests. In any run:
  - the table stays consistent with its counter;
  - the ids handed out are strictly increasing and above all earlier ones;
  - an id that is gone never comes back;
  - the stored ids are exactly those issued and not deleted.

Request bodies are `map<string, Value>`, so "key present" is map membership. `Value`
is an abstract type: the handlers never look inside a value. The one exception is
`dob`, which goes to the date check. The date check (Python's
`datetime.strptime(..., '%Y-%m-%d')`) is not part of this model. It is a parameter
`validDob: Value -> bool` of create and update, and every property holds for every
such check. `strptime` is more lenient than strict ISO 8601 calendar dates (it
accepts `2001-5-3`, for example), and the model does not equate the two. The id is
an `int` parameter.

The code checks no more than this, and neither does the model:

- Names may be empty and `amount_due` may be negative. `NOT NULL` only rejects nulls.
- `dob` is stored exactly as supplied.
- An update may name any of the four columns.
- An update with an invalid `dob` writes nothing. The only write comes after
  every check (app.py:123, after the returns at app.py:95, 113 and 119).

## Model

| member | source | states |
|---|---|---|
| Students.HasRequired | app.py:39-41 | true exactly when all four column keys are in the body; other keys play no part |
| Students.FromBody | app.py:54 | the inserted row holds, in every column, the body's value under that column's key |
| Students.RecordOf | app.py:79-85 | the returned record carries the given id and exactly the row's four fields |
| Students.Student.Set | app.py:122 | one `column = ?` of the SET clause sets that column and leaves the other three as they were |
| Students.Create | app.py:36-57 | 201 exactly when all required keys are present and the date check passes; a missing key gives 400 "Missing required fields" before the date is looked at; a failing date gives 400 "Invalid date format. Use YYYY-MM-DD"; on both errors the table is unchanged; on success exactly one row is added under the old counter value, holding the supplied values, the counter moves past it, and on a consistent table the new id is greater than every stored id, was not in use, and all other rows are unchanged |
| Students.Get | app.py:75-86 | 200 exactly when the id is stored, with a record carrying that id and that row's fields; otherwise 404 "Student not found" |
| Students.Update | app.py:89-125 | an absent id gives 404 whatever the body; then a present invalid `dob` gives 400 "Invalid date format. Use YYYY-MM-DD"; then a body with none of the four columns gives 400 "No fields to update"; every error leaves the table unchanged; 200 exactly when none of these applies, and then the row with that id has each column present in the body overwritten and the others kept, while all other rows, the set of ids and the counter stay as they were |
| Students.Delete | app.py:128-135 | an absent id gives 404 and no change; a present id gives 200 "Student deleted successfully", removes exactly that row, keeps every other row and the counter; consistency with the counter is preserved |
| Students.IdsOfAppend | app.py:65 | appending a record adds exactly its id to the ids a listing mentions |
| Students.DistinctIdsCount | app.py:63-71 | records with pairwise distinct ids mention as many ids as there are records |
| Students.ListingLength | app.py:60-72 | every listing of the table has exactly one record per stored row |
| Students.ListingDeterminesRows | app.py:60-72 | two tables with a common listing have the same rows: the listing tells the whole table |
| Students.DeleteShrinksListing | app.py:128-135 | deleting a stored row and listing again gives exactly one record fewer |
| Students.GetAfterCreate | app.py:36-86 | after a successful create, get of the new id returns 200 with that id and exactly the four supplied values |
| Students.GetAfterUpdate | app.py:89-125 | after a successful update, get returns the supplied columns and the old values of the rest |
| Students.GoneAfterDelete | app.py:128-135 | after a successful delete, get, a second delete and any update of that id all give 404 without change |
| Students.CreateTwice | app.py:50-57 | posting the same valid body twice gives two rows with equal fields under two different ids, two rows more in all |
| StudentService.StudentTable.constructor | app.py:8-21 | a new database has no rows and its first id will be 1 |
| StudentService.StudentTable.Create | app.py:36-57 | keeps the table consistent; new table and reply are those of `Students.Create` on the old table |
| StudentService.StudentTable.ListAll | app.py:60-72 | the reply is 200 carrying a JSON array that is a listing of the stored rows (one record per row with its fields, distinct ids, every row present), as many records as rows |
| StudentService.StudentTable.Get | app.py:75-86 | the reply is that of `Students.Get` on the current table |
| StudentService.StudentTable.Update | app.py:89-125 | keeps the table consistent; new table and reply are those of `Students.Update`, with the row written once from the appended SET list |
| StudentService.StudentTable.Delete | app.py:128-135 | keeps the table consistent; new table and reply are those of `Students.Delete` |
| StudentService.Walkthrough | app.py:36-135 | on a new database: create 201, get returns the supplied fields under id 1, date update 200, get shows only the new date changed, delete 200, get 404 |
| StudentTraces.Step | app.py:36-135 | serving one request keeps the table consistent; only a create moves the counter, by one; reads change nothing |
| StudentTraces.RunValid | app.py:13 | every run of requests keeps every stored id between 1 and the counter |
| StudentTraces.CounterGrows | app.py:13 | the AUTOINCREMENT counter never goes down over a run |
| StudentTraces.IssuedFresh | app.py:13 | the ids a run hands out are strictly increasing, at least the counter at the start, and below the counter at the end |
| StudentTraces.IssuedAbove | app.py:13 | an id below the counter is never handed out again |
| StudentTraces.RemovedStaysRemoved | app.py:13 | an id that was issued and is no longer stored is absent after any run |
| StudentTraces.DeletedIdNeverReused | app.py:134 | after a row is deleted, no later run brings its id back |
| StudentTraces.StepKeys | app.py:36-135 | one request adds the id it issues and removes the id it deletes, and changes no other id |
| StudentTraces.StoredIds | app.py:62 | after any run the stored ids are those stored before or issued by the run, less those it deleted |
| StudentTraces.ReadsChangeNothing | app.py:60-86 | a run of list and get requests leaves the table as it was; this lifts the read cases of `Step` to whole runs, while that the handlers themselves write nothing is shown by `StudentTable.ListAll` and `StudentTable.Get` having no `modifies` clause |

## Left out

- Flask routing, JSON (de)serialisation and the `<int:...>` path converter. The id is an `int` parameter. Negative ids, which Flask does not route, are never stored, so they would get 404.
- SQLite plumbing: `init_db`, connections and commits in `db_query`, and SQL text. Only the effect on the table is modelled. `args` receives `student_id` last for the WHERE clause (app.py:121-122); that is part of the SQL text.
- The two parallel lists `updates`/`args` of update are one list of `(column, value)` pairs.
- Python's `datetime.strptime` is not part of this model. Its verdict is the parameter `validDob`.
- Failure paths that crash with HTTP 500 instead of a handled error, with no row written:
  - a body that is `null`, a number or a boolean: the `in` tests raise `TypeError`;
  - an array or string body that does contain a key, such as `["dob"]` to PUT `/students/<stored id>`. The `in` test passes, and `data['dob']` or a similar read then raises;
  - a `dob` that is not a string (`TypeError`, not `ValueError`);
  - null values, which break `NOT NULL`;
  - an id in the URL outside 64 bits, such as `GET /students/9223372036854775808`. The `<int:...>` converter has no upper bound, so the existence SELECT (app.py:77, 94 and 131) fails to bind the id in `cursor.execute` (app.py:29). The model answers 404 "Student not found" here, in `Students.Get`, `Students.Update` and `Students.Delete` and the class methods of the same names;
  - values that sqlite3 cannot bind, which `cursor.execute` (app.py:29) rejects on the insert (app.py:55) or the write (app.py:123). These are a JSON array or object as a field value, or an integer outside 64 bits. For example, POST `{"first_name": ["Ana"], "last_name": "Li", "dob": "2001-05-03", "amount_due": 1}` gives 500 and inserts nothing. `Students.Create` here gives 201 and stores the array, and `Students.Update` gives 200 on such a value.
  `Value` is abstract, so the model folds the date check into one verdict per value and stores any value.
- Request bodies that are not JSON objects. `Body` is a map, so it covers only JSON objects. An array or string body with none of the four keys gets the same answer as an empty object, because Python's `in` then tests list membership or substrings. POST gives 400 "Missing required fields" (app.py:41-42). PUT to a stored id gives 400 "No fields to update" (app.py:101-119). PUT to an absent id gives 404 whatever the body (app.py:94-95).
- SQLite column type affinity, e.g. numeric text given for `amount_due` being stored as a number. The model stores values as supplied, so get returns them unchanged.
- A table that reaches the largest rowid (2^63 - 1) makes AUTOINCREMENT inserts fail. The counter here is unbounded.
- `amount_due` is a REAL column. No arithmetic is done on it, so it is an abstract `Value`.
- The order of the list answer: SQLite promises none. The contract promises none. `ListAll` happens to scan in rowid order.
- Concurrency: a row deleted between the existence check and the write (app.py:94 and 123, app.py:131 and 134). The model is sequential.
- `streamlit_app.py`, the user-interface client, is not part of this model.
