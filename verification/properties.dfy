/** Properties relating the handlers to each other: round trips,
    idempotence, freshness of ids, and the scenarios the service promises. */
module Properties {
  import opened Options
  import opened Json
  import opened Todos
  import opened Query
  import opened Listing
  import opened Routes

  /** A successful create inserts under an id no row had, and every row
      that was there before is still there, unchanged. */
  lemma CreateFresh(s: Store, body: Body, parse: string -> Option<Timestamp>)
    requires Valid(s)
    requires CreateTodo(s, body, parse).response.status == 201
    ensures var r := CreateTodo(s, body, parse);
      && r.response.payload.todo.id !in s.rows
      && r.store.rows.Keys == s.rows.Keys + {r.response.payload.todo.id}
      && (forall k :: k in s.rows ==> r.store.rows[k] == s.rows[k])
      && Valid(r.store)
  {
  }

  /** Creating and then fetching by the returned id yields the created row. */
  lemma CreateThenGet(s: Store, body: Body, parse: string -> Option<Timestamp>)
    requires CreateTodo(s, body, parse).response.status == 201
    ensures var r := CreateTodo(s, body, parse);
      GetTodo(r.store, r.response.payload.todo.id).response == Response(200, r.response.payload)
  {
  }

  /** Deleting what was just created restores the rows (the id sequence has
      still moved on). */
  lemma CreateThenDelete(s: Store, body: Body, parse: string -> Option<Timestamp>)
    requires Valid(s)
    requires CreateTodo(s, body, parse).response.status == 201
    ensures var r := CreateTodo(s, body, parse);
      var d := DeleteTodo(r.store, r.response.payload.todo.id);
      d.store.rows == s.rows && d.response.payload == r.response.payload
  {
  }

  /** A body with both an unknown key and no title is reported for the
      unknown key: the key check runs first. */
  lemma CreateReportsExtraBeforeTitle(s: Store, parse: string -> Option<Timestamp>)
    ensures CreateTodo(s, map["bogus" := Int(1)], parse) ==
      Step(s, Response(400, ExtraFields({"bogus"})))
    ensures CreateTodo(s, map["title" := Str("t"), "bogus" := Int(1)], parse) ==
      Step(s, Response(400, ExtraFields({"bogus"})))
    ensures CreateTodo(s, map["description" := Str("x")], parse) ==
      Step(s, Response(400, Error(MissingTitleMessage)))
    ensures CreateTodo(s, map["title" := Str("")], parse) ==
      Step(s, Response(400, Error(MissingTitleMessage)))
  {
    var b := map["title" := Str("t"), "bogus" := Int(1)];
    assert b.Keys - AllowedFields == {"bogus"};
    assert map["bogus" := Int(1)].Keys - AllowedFields == {"bogus"};
  }

  /** An update of a missing id is a 404 even when the body also has keys
      the update would reject: the lookup runs first. */
  lemma UpdateReportsMissingBeforeKeys(s: Store, id: Id, parse: string -> Option<Timestamp>)
    requires id !in s.rows
    ensures UpdateTodo(s, id, map["bogus" := Int(1)], parse) ==
      Step(s, Response(404, Error(NotFoundMessage)))
  {
  }

  /** An update with an empty body succeeds and changes nothing. */
  lemma UpdateEmptyIsIdentity(s: Store, id: Id, parse: string -> Option<Timestamp>)
    requires id in s.rows
    ensures UpdateTodo(s, id, map[], parse) == Step(s, Response(200, Record(s.rows[id])))
  {
  }

  /** Repeating an update leaves the store as the first one left it. */
  lemma UpdateIdempotent(s: Store, id: Id, body: Body, parse: string -> Option<Timestamp>)
    ensures var once := UpdateTodo(s, id, body, parse);
      UpdateTodo(once.store, id, body, parse) == once
  {
  }

  /** Fetching after a successful update returns the updated row. */
  lemma UpdateThenGet(s: Store, id: Id, body: Body, parse: string -> Option<Timestamp>)
    requires UpdateTodo(s, id, body, parse).response.status == 200
    ensures var r := UpdateTodo(s, id, body, parse);
      GetTodo(r.store, id).response == r.response
  {
  }

  /** Marking a row completed changes only `completed` and nothing else in
      the store. */
  lemma UpdateCompletedOnly(s: Store, id: Id, parse: string -> Option<Timestamp>)
    requires id in s.rows
    ensures var r := UpdateTodo(s, id, map["completed" := Bool(true)], parse);
      && r.response.status == 200
      && r.store.rows == s.rows[id := s.rows[id].(completed := Bool(true))]
  {
  }

  /** An update does not keep the title non-empty: a row created with a
      title can be updated to an empty one. */
  lemma UpdateCanBlankTitle(parse: string -> Option<Timestamp>)
    ensures var c := CreateTodo(EmptyStore, map["title" := Str("t")], parse);
      var u := UpdateTodo(c.store, 1, map["title" := Str("")], parse);
      && c.response.status == 201
      && u.response.status == 200
      && !Truthy(u.store.rows[1].title)
  {
  }

  /** Deleting twice is the same as deleting once, and the second delete
      answers with an empty object. */
  lemma DeleteIdempotent(s: Store, id: Id)
    ensures var once := DeleteTodo(s, id);
      DeleteTodo(once.store, id) == Step(once.store, Response(200, EmptyObject))
  {
  }

  /** After a delete the id is not found. */
  lemma DeleteThenGet(s: Store, id: Id)
    ensures GetTodo(DeleteTodo(s, id).store, id).response == Response(404, Error(NotFoundMessage))
  {
  }

  /** Without query arguments the list holds every stored row, each once. */
  lemma ListAll(s: Store, now: Timestamp, scan: seq<Id>)
    requires IsScan(scan, s.rows)
    ensures var todos := ListTodos(s, None, None, now, scan).response.payload.todos;
      && |todos| == |s.rows|
      && forall id :: id in s.rows ==> s.rows[id] in todos
  {
    SelectNoFilter(s.rows, scan);
    ScanLength(scan, s.rows);
  }

  /** `?completed=true` lists exactly the rows whose `completed` is true. */
  lemma ListCompletedExact(s: Store, now: Timestamp, scan: seq<Id>, id: Id)
    requires IsScan(scan, s.rows)
    requires id in s.rows
    ensures var todos := ListTodos(s, Some("true"), None, now, scan).response.payload.todos;
      s.rows[id] in todos <==> s.rows[id].completed == Bool(true)
  {
    SelectExact(s.rows, scan, QueryFilter(Some("true"), None, now), id);
  }

  /** `?window=w` lists exactly the rows due within `w` days of `now`. */
  lemma ListWindowExact(s: Store, now: Timestamp, scan: seq<Id>, id: Id, w: int)
    requires IsScan(scan, s.rows)
    requires id in s.rows
    ensures var todos := ListTodos(s, None, Some(Show(w)), now, scan).response.payload.todos;
      s.rows[id] in todos <==>
        s.rows[id].deadline.Some? && s.rows[id].deadline.value <= now + w * MicrosPerDay
  {
    QueryFilterMeaning(None, Some(Show(w)), now);
    SelectExact(s.rows, scan, QueryFilter(None, Some(Show(w)), now), id);
  }

  /** A scan lists as many ids as the store holds. */
  lemma {:induction false} ScanLength(scan: seq<Id>, rows: map<Id, Todo>)
    requires IsScan(scan, rows)
    ensures |scan| == |rows|
  {
    var ids := set i | 0 <= i < |scan| :: scan[i];
    assert ids == rows.Keys;
    DistinctCard(scan);
  }

  /** A sequence without repeats has as many elements as its set. */
  lemma {:induction false} DistinctCard(xs: seq<Id>)
    requires forall i, j :: 0 <= i < j < |xs| ==> xs[i] != xs[j]
    ensures |set i | 0 <= i < |xs| :: xs[i]| == |xs|
    decreases |xs|
  {
    if xs != [] {
      var tail := xs[1..];
      DistinctCard(tail);
      var all := set i | 0 <= i < |xs| :: xs[i];
      var rest := set i | 0 <= i < |tail| :: tail[i];
      assert all == rest + {xs[0]};
      assert xs[0] !in rest;
    }
  }
}
