# Todo API request handling, modelled in Dafny

This project models the request-handling layer of a small todo-list HTTP
service: the five `/api/v1/todos` routes in `todo/views/routes.py`. The
Flask and SQLAlchemy parts are replaced by pure functions. Each handler maps
a store and a request to the next store and a response:

- `Store` holds the rows (`map<Id, Todo>`) and the next value of the id
  sequence.
- A request body is a decoded JSON object (`map<string, Json.Value>`).
  This lets key-set validation and Python truthiness be stated directly.
- A `Response` is a status code plus a payload.

Files:

- `options.dfy`: `Option`.
- `json.dfy`: JSON values and Python truthiness.
- `todos.dfy`: the record, the store, the responses and the error texts.
- `query.dfy`: the `completed` token and the `window` integer parsing.
- `listing.dfy`: the list filters.
- `routes.dfy`: the handlers and the dispatcher.
- `properties.dfy`: lemmas that relate the handlers to each other.

Modelling choices:

- Timestamps are integers in microseconds, and `now` is a parameter.
- ISO-8601 parsing is the parameter `parse: string -> Option<Timestamp>`.
  A `deadline_at` that is not a string, or that does not parse, raises in
  the source. That is a 500 response, and the store is unchanged because
  nothing was committed.
- The order in which the store yields rows is the parameter `scan`.
- Ids come from an autoincrement counter, `Store.nextId`.
- A row without a deadline never passes the `window` filter (`Listing.DueBy`).
  This is an explicit assumption: SQL compares NULL as unknown. The model
  does not prove it.
- `title`, `description` and `completed` hold whatever JSON value the
  request supplied, because the handlers copy them unchecked. The title check
  at line 70 is Python truthiness, so `null`, `false`, `0`, `""`, `[]` and
  `{}` all count as missing, while `NaN` and `Infinity` (which Python's
  decoder also accepts) count as present.
- A malformed `window` argument counts as absent, as Flask's `type=int`
  does. It is ignored, not rejected.

Two behaviours of the update route are easy to miss:

- Update looks the id up before it checks the keys, so a missing id is a
  404 whatever the body holds.
- Update does not re-check the title, so a title can become empty
  (`Properties.UpdateCanBlankTitle`).

## Model

| member | source | states |
|---|---|---|
| Query.IsTruthyToken | todo/views/routes.py:35 | the `completed` token reads as true exactly when it is "1", "t" or "true" in any letter case; every other string reads as false, never as an error |
| Query.TruthyTokenIff | todo/views/routes.py:35 | a string lower-cases to one of "true", "1", "t" if and only if it spells one of them out in some mix of letter cases |
| Query.ParseInt | todo/views/routes.py:28 | the `window` argument parses exactly when it is an optional sign followed by one or more digits; an unsigned result is non-negative and a `-` result non-positive |
| Query.ParseShow | todo/views/routes.py:28 | every decimal integer a client sends as `window` is read back as that integer |
| Query.ParseIntRejects | todo/views/routes.py:28 | every empty or sign-only `window`, and every one holding a character that is neither a digit nor a leading sign, reads as absent (no error) |
| Listing.DueBy | todo/views/routes.py:39-41 | states the SQL NULL reading as an assumption, not a proved fact: a row without a deadline is never due, whatever the cutoff |
| Listing.DueByLater | todo/views/routes.py:39-41 | a later cutoff never drops a row that an earlier cutoff admits |
| Listing.Matches | todo/views/routes.py:34-41 | each filter only narrows: no filter passes every row; a passing row still passes with either filter dropped and under any later cutoff; a passing row has the requested `completed` value and a deadline at most the cutoff; a row meeting every supplied filter passes |
| Listing.QueryFilter | todo/views/routes.py:27-41 | `completed` filters exactly when supplied, with the truthy-token reading; a cutoff is set exactly when `window` is a well-formed integer, and it is `now` plus that many days; an absent or malformed window bounds nothing |
| Listing.QueryFilterMeaning | todo/views/routes.py:28-40 | a `window` sent as the decimal text of w gives the cutoff now + w days |
| Listing.Select | todo/views/routes.py:31-44 | the listing holds only stored rows that pass every filter, holds every scanned row that passes, and is no longer than the scan |
| Listing.SelectExact | todo/views/routes.py:33-44 | over a full scan, a stored row is listed if and only if it passes every supplied filter |
| Listing.SelectNoFilter | todo/views/routes.py:31-44 | with no filters the listing is every scanned row, in scan order |
| Listing.SelectNarrows | todo/views/routes.py:33-41 | a stronger filter lists a sub-sequence of what a weaker filter lists |
| Listing.EachFilterNarrows | todo/views/routes.py:33-41 | adding the `completed` filter or the `window` filter only narrows the listing, and no filtered listing is longer than the unfiltered one |
| Routes.ListTodos | todo/views/routes.py:24-49 | listing never changes the store and always answers 200; it returns only stored rows that match the query's filters, and over a full scan of the store a stored row is listed if and only if it matches them |
| Routes.GetTodo | todo/views/routes.py:51-56 | the store is unchanged; 200 with the stored row exactly when the id exists, otherwise 404 "Todo not found" |
| Routes.CreateTodo | todo/views/routes.py:58-86 | the unknown-key check comes first and names every unknown key; then a missing or falsy title is rejected; every failure leaves the store unchanged; success inserts one row under the next id with the supplied fields, `description` defaulting to "" and `completed` to false, and sets the deadline only when `deadline_at` is supplied |
| Routes.UpdateTodo | todo/views/routes.py:88-112 | a missing id is a 404 before any key check; an unknown key on an existing id is a 400; failures leave the store unchanged; success keeps the id and the key set, changes no other row, and overwrites exactly the supplied fields |
| Routes.DeleteTodo | todo/views/routes.py:114-122 | always 200; removes exactly the given id and keeps every other row; returns the removed row, or an empty object and an unchanged store when the id is missing |
| Routes.Handle | todo/views/routes.py:24-122 | every failing response leaves the store unchanged; reads never change it; the store invariant (ids below the sequence, rows under their own id) is preserved; only a delete removes a row, and only the named one |
| Properties.CreateFresh | todo/views/routes.py:74-86 | a created row gets an id no existing row had; all earlier rows are unchanged; the store stays well formed |
| Properties.CreateThenGet | todo/views/routes.py:51-86 | fetching the id a create returned yields the created row |
| Properties.CreateThenDelete | todo/views/routes.py:74-122 | deleting the row just created restores the earlier rows and returns the created row |
| Properties.CreateReportsExtraBeforeTitle | todo/views/routes.py:61-71 | `{"title":"t","bogus":1}` and `{"bogus":1}` are rejected naming `bogus`; `{"description":"x"}` and an empty title are rejected as a missing title; the store is unchanged |
| Properties.UpdateReportsMissingBeforeKeys | todo/views/routes.py:90-100 | an update of a missing id with an unknown key is a 404, not a 400 |
| Properties.UpdateEmptyIsIdentity | todo/views/routes.py:103-112 | an update with an empty body succeeds and leaves the store as it was |
| Properties.UpdateIdempotent | todo/views/routes.py:88-112 | repeating an update yields the same store and response as doing it once |
| Properties.UpdateThenGet | todo/views/routes.py:51-112 | fetching after a successful update returns the updated row |
| Properties.UpdateCompletedOnly | todo/views/routes.py:103-112 | `{"completed": true}` changes only that row's `completed` field |
| Properties.UpdateCanBlankTitle | todo/views/routes.py:70-112 | a row created with a non-empty title can be updated to an empty title |
| Properties.DeleteIdempotent | todo/views/routes.py:114-122 | a second delete of the same id answers 200 with an empty object and changes nothing |
| Properties.DeleteThenGet | todo/views/routes.py:51-122 | after a delete, fetching the id is a 404 "Todo not found" |
| Properties.ListAll | todo/views/routes.py:31-47 | with no query arguments, the list holds every stored row, and as many entries as there are rows |
| Properties.ListCompletedExact | todo/views/routes.py:34-36 | `?completed=true` lists a stored row if and only if its `completed` is true |
| Properties.ListWindowExact | todo/views/routes.py:39-41 | `?window=w` lists a stored row if and only if it has a deadline at most w days after `now` |

## Left out

- The `health` endpoint and the unused `TEST_ITEM` constant are trivial.
- Flask routing, `jsonify` and the HTTP layer are left out. A response is a
  status code and a payload.
- `Todo.to_dict` and the `created_at`/`updated_at` bookkeeping live in
  `todo/models/todo.py`, which is not part of this model. Payloads carry the
  record itself, and the timestamps are not modelled.
- The column types and any coercion or constraints the store applies on
  commit are not modelled. They are also defined in `todo/models/todo.py`.
- Listing.Matches compares the stored `completed` value with the JSON
  boolean itself. A row created with `"completed": 1` would be stored as
  true by a Boolean column and listed under `?completed=true`; the model
  does not list it.
- The text of the extra-fields error joins the key names in a Python set's
  iteration order, which is unspecified. The model keeps the set of names.
- `datetime.fromisoformat` is a parameter, and `datetime.utcnow()` is the
  parameter `now`. Time-zone-aware deadlines are not distinguished from
  naive ones.
- Query.ParseInt: Python's `int()` also accepts surrounding whitespace,
  underscores between digits and non-ASCII digits. The model accepts only an
  optional sign followed by ASCII digits. Recent Python versions (3.11 on,
  and the 3.10.7 and 3.9.14 security releases) also reject strings of more
  than 4300 digits. Flask then reads such a `window` as absent and lists
  every row. The model has no digit limit: it parses the string and applies
  the cutoff.
- Query.Lower lower-cases ASCII letters only. No other character
  lower-cases to one of `t`, `r`, `u`, `e` or `1`, so the token predicate
  does not change.
- Routes.ListTodos: promises 200 for every `window`. In the source, a window
  above about 2.9 million days, or below about -740 thousand days, makes
  `datetime.utcnow() + timedelta(days=window)` leave datetime's range
  (years 1 to 9999). That raises `OverflowError`, which is a server error.
  Timestamps here are unbounded integers, so the model does not reproduce
  that error.
- A request body that is not a JSON object fails in the source when it calls
  `.keys()`. The model takes bodies to be objects.
- Session handling, commits, rollback and concurrency belong to the
  database. Each request is one atomic step here.
