/** The request handlers of todo/views/routes.py as pure functions from a
    store and a request to the next store and the response. */
module Routes {
  import opened Options
  import opened Json
  import opened Todos
  import opened Listing

  /** `datetime.fromisoformat(v)`: `parse` stands for the ISO-8601 reading of
      a string; any other JSON value raises, as a non-string argument does. */
  function ParseDeadline(v: Value, parse: string -> Option<Timestamp>): Option<Timestamp> {
    if v.Str? then parse(v.s) else None
  }

  /** The body carries a `deadline_at` that cannot be read as a time. */
  predicate BadDeadline(body: Body, parse: string -> Option<Timestamp>) {
    "deadline_at" in body && ParseDeadline(body["deadline_at"], parse).None?
  }

  /** The deadline a body sets, if it sets one. */
  function BodyDeadline(body: Body, parse: string -> Option<Timestamp>): Option<Timestamp> {
    if "deadline_at" in body then ParseDeadline(body["deadline_at"], parse) else None
  }

  /** `GET /todos`: the stored rows passing the query's filters, in the
      order `scan` in which the store yields them. */
  function ListTodos(s: Store, completedArg: Option<string>, windowArg: Option<string>,
                     now: Timestamp, scan: seq<Id>): (r: Step)
    ensures r.store == s
    ensures r.response.status == 200 && r.response.payload.Records?
    ensures forall t :: t in r.response.payload.todos ==>
      t in s.rows.Values && Matches(t, QueryFilter(completedArg, windowArg, now))
    ensures IsScan(scan, s.rows) ==> forall id :: id in s.rows ==>
      (s.rows[id] in r.response.payload.todos <==> Matches(s.rows[id], QueryFilter(completedArg, windowArg, now)))
  {
    Step(s, Response(200, Records(Select(s.rows, scan, QueryFilter(completedArg, windowArg, now)))))
  }

  /** `GET /todos/<id>`. */
  function GetTodo(s: Store, id: Id): (r: Step)
    ensures r.store == s
    ensures r.response.status == 200 <==> id in s.rows
    ensures id in s.rows ==> r.response.payload == Record(s.rows[id])
    ensures id !in s.rows ==> r.response == Response(404, Error(NotFoundMessage))
  {
    if id in s.rows then Step(s, Response(200, Record(s.rows[id])))
    else Step(s, Response(404, Error(NotFoundMessage)))
  }

  /** `POST /todos`. Extra keys are rejected before the title is looked at;
      a missing or falsy title is rejected next; otherwise a new row is
      inserted under the sequence's next id. */
  function CreateTodo(s: Store, body: Body, parse: string -> Option<Timestamp>): (r: Step)
    // order of checks and their error responses
    ensures !(body.Keys <= AllowedFields) ==>
      r == Step(s, Response(400, ExtraFields(body.Keys - AllowedFields)))
    ensures body.Keys <= AllowedFields && ("title" !in body || !Truthy(body["title"])) ==>
      r == Step(s, Response(400, Error(MissingTitleMessage)))
    ensures r.response.status == 201 <==>
      body.Keys <= AllowedFields && "title" in body && Truthy(body["title"]) && !BadDeadline(body, parse)
    // every failure, the 500 of an unreadable deadline included, leaves the store alone
    ensures r.response.status != 201 ==> r.store == s && IsFailure(r.response)
    // success: one new row, holding the supplied fields and the defaults
    ensures r.response.status == 201 ==>
      && r.response.payload.Record?
      && var t := r.response.payload.todo;
      && t.id == s.nextId
      && r.store == Store(s.rows[t.id := t], s.nextId + 1)
      && t.title == body["title"] && Truthy(t.title)
      && ("description" in body ==> t.description == body["description"])
      && ("description" !in body ==> t.description == Str(""))
      && ("completed" in body ==> t.completed == body["completed"])
      && ("completed" !in body ==> t.completed == Bool(false))
      && (t.deadline.Some? <==> "deadline_at" in body)
      && (t.deadline.Some? ==> Some(t.deadline.value) == ParseDeadline(body["deadline_at"], parse))
  {
    var extra := body.Keys - AllowedFields;
    if extra != {} then
      Step(s, Response(400, ExtraFields(extra)))
    else if "title" !in body || !Truthy(body["title"]) then
      Step(s, Response(400, Error(MissingTitleMessage)))
    else if BadDeadline(body, parse) then
      Step(s, Response(500, ServerError))
    else
      var t := Todo(
        s.nextId,
        body["title"],
        GetOr(body, "description", Str("")),
        GetOr(body, "completed", Bool(false)),
        BodyDeadline(body, parse));
      Step(Store(s.rows[t.id := t], s.nextId + 1), Response(201, Record(t)))
  }

  /** `next` is `prior` with exactly the fields present in `body` overwritten. */
  predicate Overwrites(prior: Todo, body: Body, parse: string -> Option<Timestamp>, next: Todo) {
    && next.id == prior.id
    && ("title" in body ==> next.title == body["title"])
    && ("title" !in body ==> next.title == prior.title)
    && ("description" in body ==> next.description == body["description"])
    && ("description" !in body ==> next.description == prior.description)
    && ("completed" in body ==> next.completed == body["completed"])
    && ("completed" !in body ==> next.completed == prior.completed)
    && ("deadline_at" in body ==> next.deadline == ParseDeadline(body["deadline_at"], parse))
    && ("deadline_at" !in body ==> next.deadline == prior.deadline)
  }

  /** `PUT /todos/<id>`. The lookup comes first, then the key check; the
      supplied fields overwrite the row, without re-checking the title. */
  function UpdateTodo(s: Store, id: Id, body: Body, parse: string -> Option<Timestamp>): (r: Step)
    ensures id !in s.rows ==> r == Step(s, Response(404, Error(NotFoundMessage)))
    ensures id in s.rows && !(body.Keys <= AllowedFields) ==>
      r == Step(s, Response(400, Error(UnexpectedFieldsMessage)))
    ensures r.response.status == 200 <==>
      id in s.rows && body.Keys <= AllowedFields && !BadDeadline(body, parse)
    ensures r.response.status != 200 ==> r.store == s && IsFailure(r.response)
    ensures r.response.status == 200 ==>
      && r.store.nextId == s.nextId
      && r.store.rows.Keys == s.rows.Keys
      && (forall k :: k in s.rows && k != id ==> r.store.rows[k] == s.rows[k])
      && Overwrites(s.rows[id], body, parse, r.store.rows[id])
      && r.response.payload == Record(r.store.rows[id])
  {
    if id !in s.rows then
      Step(s, Response(404, Error(NotFoundMessage)))
    else if !(body.Keys <= AllowedFields) then
      Step(s, Response(400, Error(UnexpectedFieldsMessage)))
    else if BadDeadline(body, parse) then
      Step(s, Response(500, ServerError))
    else
      var prior := s.rows[id];
      var t := prior.(
        title := GetOr(body, "title", prior.title),
        description := GetOr(body, "description", prior.description),
        completed := GetOr(body, "completed", prior.completed),
        deadline := if "deadline_at" in body then BodyDeadline(body, parse) else prior.deadline);
      Step(Store(s.rows[id := t], s.nextId), Response(200, Record(t)))
  }

  /** `DELETE /todos/<id>`. A missing id is a successful no-op. */
  function DeleteTodo(s: Store, id: Id): (r: Step)
    ensures r.response.status == 200
    ensures r.store.nextId == s.nextId
    ensures r.store.rows.Keys == s.rows.Keys - {id}
    ensures forall k :: k in r.store.rows ==> r.store.rows[k] == s.rows[k]
    ensures id in s.rows ==> r.response.payload == Record(s.rows[id])
    ensures id !in s.rows ==> r.store == s && r.response.payload == EmptyObject
  {
    if id !in s.rows then Step(s, Response(200, EmptyObject))
    else Step(Store(s.rows - {id}, s.nextId), Response(200, Record(s.rows[id])))
  }

  /** A request as the routes receive it. */
  datatype Request =
    | List(completedArg: Option<string>, windowArg: Option<string>)
    | Get(id: Id)
    | Create(body: Body)
    | Update(id: Id, body: Body)
    | Delete(id: Id)

  /** What a request sees besides the store: the clock, the order the store
      yields rows in, and the ISO-8601 reader. */
  datatype Env = Env(now: Timestamp, scan: seq<Id>, parse: string -> Option<Timestamp>)

  /** Dispatch a request to its handler. */
  function Handle(s: Store, req: Request, env: Env): (r: Step)
    ensures IsFailure(r.response) ==> r.store == s
    ensures Valid(s) ==> Valid(r.store)
    ensures Valid(s) ==> forall k :: k in s.rows && k !in r.store.rows ==> req.Delete? && k == req.id
    ensures (req.List? || req.Get?) ==> r.store == s
  {
    match req
    case List(c, w) => ListTodos(s, c, w, env.now, env.scan)
    case Get(id) => GetTodo(s, id)
    case Create(body) => CreateTodo(s, body, env.parse)
    case Update(id, body) => UpdateTodo(s, id, body, env.parse)
    case Delete(id) => DeleteTodo(s, id)
  }
}
