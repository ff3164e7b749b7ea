/** The todo record, the keyed store that owns the records, and the
    responses the route handlers return. */
module Todos {
  import opened Options
  import opened Json

  /** Row identifiers; Flask's `<int:todo_id>` converter admits only
      non-negative integers. */
  type Id = nat

  /** A point in time, in microseconds (the resolution of Python's datetime). */
  type Timestamp = int

  /** A stored todo. The route handlers copy title, description and completed
      from the request unchecked, so they hold the decoded JSON value. */
  datatype Todo = Todo(
    id: Id,
    title: Value,
    description: Value,
    completed: Value,
    deadline: Option<Timestamp>)

  /** The persistence store: rows by id, plus the next id its autoincrement
      sequence will hand out. */
  datatype Store = Store(rows: map<Id, Todo>, nextId: Id)

  /** Well-formed store: ids are positive, lie below the sequence's next
      value, and every row carries the id it is stored under. */
  predicate Valid(s: Store) {
    && 0 < s.nextId
    && forall id :: id in s.rows ==> 0 < id < s.nextId && s.rows[id].id == id
  }

  /** The store of a fresh database. */
  const EmptyStore := Store(map[], 1)

  /** The fields a request body may carry. */
  const AllowedFields: set<string> := {"title", "description", "completed", "deadline_at"}

  const NotFoundMessage := "Todo not found"
  const MissingTitleMessage := "Missing required field: title"
  const UnexpectedFieldsMessage := "Unexpected fields in request"

  /** A response body. `Record` and `Records` carry the todo itself in place
      of its dictionary projection; `ExtraFields` is the
      "Extra fields provided: ..." error, which names every rejected key;
      `ServerError` is the 500 an uncaught exception produces. */
  datatype Payload =
    | Record(todo: Todo)
    | Records(todos: seq<Todo>)
    | Error(message: string)
    | ExtraFields(names: set<string>)
    | EmptyObject
    | ServerError

  datatype Response = Response(status: nat, payload: Payload)

  /** The store after a request, and the response sent. */
  datatype Step = Step(store: Store, response: Response)

  predicate IsFailure(r: Response) {
    400 <= r.status
  }
}
