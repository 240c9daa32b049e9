/** Sequences of requests against one store, as the single-threaded server
    serves them one after another, and the properties that hold across them. */
module TodoRuns {
  import opened TodoModel

  /** One HTTP request to one of the five routes. A PUT carries its JSON body. */
  datatype Request =
    | GetAll                                // GET /todos
    | GetById(id: nat)                      // GET /todos/<id>
    | Post(body: Option<Payload>)           // POST /todos
    | Put(id: nat, payload: Payload)        // PUT /todos/<id>
    | Delete(id: nat)                       // DELETE /todos/<id>

  /** Route dispatch: the store after the request and the response. */
  function Handle(st: Store, req: Request): (out: Step)
    ensures out.response.Created? ==> out.response.todo.id == st.nextId && out.store.nextId == st.nextId + 1
    ensures !out.response.Created? ==> out.store.nextId == st.nextId
    ensures req.GetAll? || req.GetById? ==> out.store == st
  {
    match req
    case GetAll => Step(st, Listed(st.todos))
    case GetById(id) => Step(st, GetTodo(st, id))
    case Post(body) => CreateTodo(st, body)
    case Put(id, p) => UpdateTodo(st, id, Some(p))
    case Delete(id) => DeleteTodo(st, id)
  }

  /** The store after serving the requests in order. */
  function Run(st: Store, reqs: seq<Request>): (r: Store)
    decreases |reqs|
  {
    if reqs == [] then st else Run(Handle(st, reqs[0]).store, reqs[1..])
  }

  /** The responses to the requests, in order. */
  function Responses(st: Store, reqs: seq<Request>): (rs: seq<Response>)
    ensures |rs| == |reqs|
    decreases |reqs|
  {
    if reqs == [] then [] else [Handle(st, reqs[0]).response] + Responses(Handle(st, reqs[0]).store, reqs[1..])
  }

  /** The ids reported by the Created responses among rs, in order. */
  function CreatedIds(rs: seq<Response>): (ids: seq<nat>) {
    if rs == [] then []
    else (if rs[0].Created? then [rs[0].todo.id] else []) + CreatedIds(rs[1..])
  }

  predicate StrictlyIncreasing(ids: seq<nat>) {
    forall j, k :: 0 <= j < k < |ids| ==> ids[j] < ids[k]
  }

  predicate WithinRange(ids: seq<nat>, lo: nat, hi: nat) {
    forall k :: 0 <= k < |ids| ==> lo <= ids[k] < hi
  }

  lemma HandleKeepsWellFormed(st: Store, req: Request)
    requires WellFormed(st)
    ensures WellFormed(Handle(st, req).store)
  {
    match req
    case GetAll =>
    case GetById(_) =>
    case Post(body) => CreateKeepsWellFormed(st, body);
    case Put(id, p) => UpdateKeepsWellFormed(st, id, Some(p));
    case Delete(id) => DeleteKeepsWellFormed(st, id);
  }

  /** The invariant holds after any sequence of requests, and the counter never decreases. */
  lemma {:induction false} RunKeepsWellFormed(st: Store, reqs: seq<Request>)
    requires WellFormed(st)
    ensures WellFormed(Run(st, reqs))
    ensures st.nextId <= Run(st, reqs).nextId
    decreases |reqs|
  {
    if reqs != [] {
      HandleKeepsWellFormed(st, reqs[0]);
      RunKeepsWellFormed(Handle(st, reqs[0]).store, reqs[1..]);
    }
  }

  /** The ids handed out by any sequence of requests strictly increase, so they
      are unique, and each was the counter's value at some point of the run. */
  lemma {:induction false} CreatedIdsAscending(st: Store, reqs: seq<Request>)
    ensures StrictlyIncreasing(CreatedIds(Responses(st, reqs)))
    ensures WithinRange(CreatedIds(Responses(st, reqs)), st.nextId, Run(st, reqs).nextId)
    ensures st.nextId <= Run(st, reqs).nextId
    decreases |reqs|
  {
    if reqs != [] {
      var out := Handle(st, reqs[0]);
      CreatedIdsAscending(out.store, reqs[1..]);
      var rest := CreatedIds(Responses(out.store, reqs[1..]));
      assert Responses(st, reqs) == [out.response] + Responses(out.store, reqs[1..]);
      assert ([out.response] + Responses(out.store, reqs[1..]))[1..] == Responses(out.store, reqs[1..]);
      var ids := CreatedIds(Responses(st, reqs));
      assert ids == (if out.response.Created? then [st.nextId] else []) + rest;
      assert Run(st, reqs) == Run(out.store, reqs[1..]);
      if out.response.Created? {
        forall j, k | 0 <= j < k < |ids| ensures ids[j] < ids[k] {
          assert ids[k] == rest[k - 1];
          if j > 0 { assert ids[j] == rest[j - 1]; }
        }
        forall k | 0 <= k < |ids| ensures st.nextId <= ids[k] < Run(st, reqs).nextId {
          if k > 0 { assert ids[k] == rest[k - 1]; }
        }
      }
    }
  }

  /** One request never brings back an id below the counter that no record carries. */
  lemma HandleKeepsIdFree(st: Store, id: nat, req: Request)
    requires WellFormed(st) && id < st.nextId && Find(st.todos, id).None?
    ensures id < Handle(st, req).store.nextId && Find(Handle(st, req).store.todos, id).None?
  {
    var out := Handle(st, req);
    match req
    case GetAll =>
    case GetById(_) =>
    case Post(_) =>
      assert forall k :: 0 <= k < |out.store.todos| ==> out.store.todos[k].id != id by {
        assert forall k :: 0 <= k < |st.todos| ==> out.store.todos[k] == st.todos[k];
      }
    case Put(x, p) =>
    case Delete(x) =>
      match Find(st.todos, x) {
        case None =>
        case Some(i) =>
          forall k | 0 <= k < |out.store.todos| ensures out.store.todos[k].id != id {
            assert out.store.todos[k] == st.todos[if k < i then k else k + 1];
          }
      }
  }

  /** An id below the counter that no record carries never comes back: no later
      request recreates it and GET on it keeps answering 404. */
  lemma {:induction false} FreedIdStaysFree(st: Store, id: nat, reqs: seq<Request>)
    requires WellFormed(st) && id < st.nextId && Find(st.todos, id).None?
    ensures GetTodo(Run(st, reqs), id) == NotFound
    ensures id !in CreatedIds(Responses(st, reqs))
    decreases |reqs|
  {
    CreatedIdsAscending(st, reqs);
    if reqs != [] {
      HandleKeepsWellFormed(st, reqs[0]);
      HandleKeepsIdFree(st, id, reqs[0]);
      FreedIdStaysFree(Handle(st, reqs[0]).store, id, reqs[1..]);
    }
  }

  /** Once a record is deleted, its id is gone for good: whatever requests follow,
      none of them creates that id again and GET on it answers 404. */
  lemma DeletedIdNeverReturns(st: Store, id: nat, reqs: seq<Request>)
    requires WellFormed(st) && DeleteTodo(st, id).response == Deleted
    ensures GetTodo(Run(DeleteTodo(st, id).store, reqs), id) == NotFound
    ensures id !in CreatedIds(Responses(DeleteTodo(st, id).store, reqs))
  {
    DeleteKeepsWellFormed(st, id);
    FreedIdStaysFree(DeleteTodo(st, id).store, id, reqs);
  }

  /** The walk-through of the service: create "Buy milk", list, complete it,
      delete it, and look it up again. */
  lemma Scenario()
    ensures var s0 := Initial;
      var c := CreateTodo(s0, Some(Payload(Some("Buy milk"), None)));
      var u := UpdateTodo(c.store, 1, Some(Payload(None, Some(true))));
      var d := DeleteTodo(u.store, 1);
      && c.response == Created(Todo(1, "Buy milk", false)) && c.response.Status() == 201
      && Handle(c.store, GetAll).response == Listed([Todo(1, "Buy milk", false)])
      && u.response == Ok(Todo(1, "Buy milk", true)) && u.response.Status() == 200
      && d.response == Deleted && d.response.Status() == 200
      && GetTodo(d.store, 1) == NotFound && GetTodo(d.store, 1).Status() == 404
  {
    var c := CreateTodo(Initial, Some(Payload(Some("Buy milk"), None)));
    assert c.store.todos == [Todo(1, "Buy milk", false)];
    var u := UpdateTodo(c.store, 1, Some(Payload(None, Some(true))));
    assert u.store.todos == [Todo(1, "Buy milk", true)];
  }
}
