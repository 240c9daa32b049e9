/** Value-level model of the in-memory todo store of a small Flask service:
    the records, the request payloads and the responses. CreateTodo, UpdateTodo
    and DeleteTodo map the old store to the new store and the response; GetTodo
    returns only the response. The list route has no function here: it is
    answered by TodoRuns.Handle and by TodoApp.TodoStore.GetTodos. */
module TodoModel {

  datatype Option<T> = None | Some(value: T)

  /** One todo record, as the dict {"id", "title", "completed"} it is stored as. */
  datatype Todo = Todo(id: nat, title: string, completed: bool)

  /** A JSON object body, reduced to the two keys the handlers consult.
      None means the key is absent; every other key is ignored. */
  datatype Payload = Payload(title: Option<string>, completed: Option<bool>)

  /** What a handler answers; each constructor stands for one status code and body. */
  datatype Response =
    | Listed(todos: seq<Todo>)  // 200, the JSON array of all todos
    | Ok(todo: Todo)            // 200, one todo
    | Created(todo: Todo)       // 201, the new todo
    | Deleted                   // 200, {"message": "Todo deleted"}
    | NotFound                  // 404, "Todo not found"
    | BadRequest                // 400, "Title is required"
  {
    /** The HTTP status code the handler returns with this response. */
    function Status(): (code: nat)
      ensures code == 200 <==> Listed? || Ok? || Deleted?
      ensures code == 201 <==> Created?
      ensures 200 <= code < 300 <==> !(NotFound? || BadRequest?)
      ensures code == 404 <==> NotFound?
      ensures code == 400 <==> BadRequest?
    {
      match this
      case Listed(_) => 200
      case Ok(_) => 200
      case Created(_) => 201
      case Deleted => 200
      case NotFound => 404
      case BadRequest => 400
    }
  }

  /** The two module-level globals: the list `todos` and the counter `next_id`. */
  datatype Store = Store(todos: seq<Todo>, nextId: nat)

  /** The store after a handler ran, and the handler's response. */
  datatype Step = Step(store: Store, response: Response)

  /** The state at process start: an empty list and the counter at 1. */
  const Initial: Store := Store([], 1)

  predicate IdsDistinct(s: seq<Todo>) {
    forall j, k :: 0 <= j < |s| && 0 <= k < |s| && j != k ==> s[j].id != s[k].id
  }

  predicate IdsAscending(s: seq<Todo>) {
    forall j, k :: 0 <= j < k < |s| ==> s[j].id < s[k].id
  }

  predicate IdsBelow(s: seq<Todo>, bound: nat) {
    forall k :: 0 <= k < |s| ==> 1 <= s[k].id < bound
  }

  /** The store invariant: ids are pairwise distinct, increase along the list,
      and were all handed out by the counter (so lie in 1 .. nextId - 1). */
  predicate WellFormed(st: Store) {
    1 <= st.nextId && IdsDistinct(st.todos) && IdsAscending(st.todos) && IdsBelow(st.todos, st.nextId)
  }

  lemma InitialWellFormed()
    ensures WellFormed(Initial) && Initial.todos == []
  {
  }

  /** The linear scan `for todo in todos: if todo["id"] == todo_id`: the index
      of the first record carrying the id, or None when none does. */
  function Find(s: seq<Todo>, id: nat): (r: Option<nat>)
    ensures r.Some? ==> r.value < |s| && s[r.value].id == id
    ensures r.Some? ==> forall k :: 0 <= k < r.value ==> s[k].id != id
    ensures r.None? <==> forall k :: 0 <= k < |s| ==> s[k].id != id
  {
    if s == [] then None
    else if s[0].id == id then Some(0)
    else match Find(s[1..], id)
      case None => None
      case Some(k) => Some(k + 1)
  }

  /** Python's `list.remove(x)`: drops the first element equal to x. Python
      raises ValueError when x is absent; the source only calls it with an
      element of the list, so here that case returns the list unchanged. */
  function RemoveFirst(s: seq<Todo>, x: Todo): (r: seq<Todo>)
    ensures x in s ==> |r| == |s| - 1
    ensures x !in s ==> r == s
  {
    if s == [] then []
    else if s[0] == x then s[1..]
    else [s[0]] + RemoveFirst(s[1..], x)
  }

  /** Reference definition of deletion: every record whose id differs, in order. */
  function Without(s: seq<Todo>, id: nat): (r: seq<Todo>) {
    if s == [] then []
    else (if s[0].id == id then [] else [s[0]]) + Without(s[1..], id)
  }

  /** The dict update of PUT: a key present in the payload overwrites the field. */
  function Patch(t: Todo, p: Payload): (r: Todo)
    ensures r.id == t.id
    ensures p.title.Some? ==> r.title == p.title.value
    ensures p.title.None? ==> r.title == t.title
    ensures p.completed.Some? ==> r.completed == p.completed.value
    ensures p.completed.None? ==> r.completed == t.completed
    ensures p == Payload(None, None) ==> r == t
  {
    Todo(t.id,
         if p.title.Some? then p.title.value else t.title,
         if p.completed.Some? then p.completed.value else t.completed)
  }

  /** GET /todos/<id>. */
  function GetTodo(st: Store, id: nat): (r: Response)
    ensures r.Ok? || r.NotFound?
    ensures r.Ok? ==> r.todo in st.todos && r.todo.id == id
    ensures r.NotFound? <==> forall k :: 0 <= k < |st.todos| ==> st.todos[k].id != id
    ensures WellFormed(st) ==> forall k :: 0 <= k < |st.todos| && st.todos[k].id == id ==> r == Ok(st.todos[k])
  {
    match Find(st.todos, id)
    case Some(i) => Ok(st.todos[i])
    case None => NotFound
  }

  /** POST /todos. `body` is None when the request carries no JSON object. */
  function CreateTodo(st: Store, body: Option<Payload>): (out: Step)
    ensures out.response.BadRequest? <==> body.None? || body.value.title.None?
    ensures out.response.BadRequest? ==> out.store == st
    ensures !out.response.BadRequest? ==>
      && out.response == Created(Todo(st.nextId, body.value.title.value, false))
      && out.store.todos == st.todos + [out.response.todo]
      && out.store.nextId == st.nextId + 1
  {
    if body.None? || body.value.title.None? then Step(st, BadRequest)
    else
      var t := Todo(st.nextId, body.value.title.value, false);
      Step(Store(st.todos + [t], st.nextId + 1), Created(t))
  }

  /** PUT /todos/<id>. A null body crashes the handler once a record matches,
      so the caller must supply a body unless the id is unknown. */
  function UpdateTodo(st: Store, id: nat, body: Option<Payload>): (out: Step)
    requires body.Some? || Find(st.todos, id).None?
    ensures out.store.nextId == st.nextId
    ensures |out.store.todos| == |st.todos|
    ensures forall x :: Find(out.store.todos, x) == Find(st.todos, x)
    ensures match Find(st.todos, id)
      case None => out == Step(st, NotFound)
      case Some(i) =>
        && out.response == Ok(out.store.todos[i])
        && out.response.todo.id == id
        && out.response.todo.title == (if body.value.title.Some? then body.value.title.value else st.todos[i].title)
        && out.response.todo.completed == (if body.value.completed.Some? then body.value.completed.value else st.todos[i].completed)
        && forall k :: 0 <= k < |st.todos| && k != i ==> out.store.todos[k] == st.todos[k]
  {
    match Find(st.todos, id)
    case None => Step(st, NotFound)
    case Some(i) =>
      var t := Patch(st.todos[i], body.value);
      var s := st.todos[i := t];
      assert forall k :: 0 <= k < |s| ==> s[k].id == st.todos[k].id;
      SameIdsSameFind(st.todos, s);
      Step(Store(s, st.nextId), Ok(t))
  }

  /** DELETE /todos/<id>: `todos.remove(todo)` on the first match. */
  function DeleteTodo(st: Store, id: nat): (out: Step)
    ensures out.store.nextId == st.nextId
    ensures out.response.Deleted? || out.response.NotFound?
    ensures match Find(st.todos, id)
      case None => out == Step(st, NotFound)
      case Some(i) => out.response == Deleted && out.store.todos == st.todos[..i] + st.todos[i + 1..]
  {
    match Find(st.todos, id)
    case None => Step(st, NotFound)
    case Some(i) =>
      RemoveFirstAtFind(st.todos, id, i);
      Step(Store(RemoveFirst(st.todos, st.todos[i]), st.nextId), Deleted)
  }

  // ---------------------------------------------------------------------------
  // Lemmas about the sequence helpers

  /** Two lists with the same ids position by position answer every lookup alike. */
  lemma {:induction false} SameIdsSameFind(s: seq<Todo>, t: seq<Todo>)
    requires |s| == |t| && forall k :: 0 <= k < |s| ==> s[k].id == t[k].id
    ensures forall x :: Find(t, x) == Find(s, x)
  {
    if s != [] {
      SameIdsSameFind(s[1..], t[1..]);
    }
  }

  /** `list.remove(x)` drops the element at i when i is the first position holding x. */
  lemma {:induction false} RemoveFirstAt(s: seq<Todo>, x: Todo, i: nat)
    requires i < |s| && s[i] == x && forall k :: 0 <= k < i ==> s[k] != x
    ensures RemoveFirst(s, x) == s[..i] + s[i + 1..]
  {
    if i > 0 {
      var t := s[1..];
      assert t[i - 1] == x;
      assert forall k :: 0 <= k < i - 1 ==> t[k] == s[k + 1];
      RemoveFirstAt(t, x, i - 1);
      assert s[..i] == [s[0]] + t[..i - 1];
      assert s[i + 1..] == t[i..];
    }
  }

  /** `list.remove(todo)` compares by value, yet it removes the very record the
      scan found: every earlier record carries a different id, so differs. */
  lemma RemoveFirstAtFind(s: seq<Todo>, id: nat, i: nat)
    requires Find(s, id) == Some(i)
    ensures RemoveFirst(s, s[i]) == s[..i] + s[i + 1..]
  {
    assert forall k :: 0 <= k < i ==> s[k].id != s[i].id;
    RemoveFirstAt(s, s[i], i);
  }

  lemma {:induction false} WithoutAbsent(s: seq<Todo>, id: nat)
    requires forall k :: 0 <= k < |s| ==> s[k].id != id
    ensures Without(s, id) == s
  {
    if s != [] {
      WithoutAbsent(s[1..], id);
    }
  }

  /** With distinct ids, removing the first match removes every match. */
  lemma {:induction false} WithoutAtFind(s: seq<Todo>, id: nat, i: nat)
    requires IdsDistinct(s) && Find(s, id) == Some(i)
    ensures Without(s, id) == s[..i] + s[i + 1..]
  {
    if i == 0 {
      assert forall k :: 0 <= k < |s[1..]| ==> s[1..][k].id != id by {
        forall k | 0 <= k < |s[1..]| ensures s[1..][k].id != id {
          assert s[1..][k] == s[k + 1];
        }
      }
      WithoutAbsent(s[1..], id);
    } else {
      WithoutAtFind(s[1..], id, i - 1);
      assert s[1..][..i - 1] == s[1..i];
      assert s[1..][i..] == s[i + 1..];
      assert [s[0]] + s[1..i] == s[..i];
    }
  }

  /** Dropping one record keeps the invariant: what remains is a subsequence. */
  lemma RemoveAtKeepsWellFormed(st: Store, i: nat)
    requires WellFormed(st) && i < |st.todos|
    ensures WellFormed(Store(st.todos[..i] + st.todos[i + 1..], st.nextId))
  {
    var s, r := st.todos, st.todos[..i] + st.todos[i + 1..];
    assert forall k :: 0 <= k < |r| ==> r[k] == s[if k < i then k else k + 1];
  }

  // ---------------------------------------------------------------------------
  // Every handler keeps the store invariant

  lemma CreateKeepsWellFormed(st: Store, body: Option<Payload>)
    requires WellFormed(st)
    ensures WellFormed(CreateTodo(st, body).store)
  {
    var out := CreateTodo(st, body);
    if out.response.Created? {
      var s, r := st.todos, out.store.todos;
      assert forall k :: 0 <= k < |s| ==> r[k] == s[k];
      assert r[|s|].id == st.nextId;
    }
  }

  lemma UpdateKeepsWellFormed(st: Store, id: nat, body: Option<Payload>)
    requires WellFormed(st)
    requires body.Some? || Find(st.todos, id).None?
    ensures WellFormed(UpdateTodo(st, id, body).store)
  {
    var out := UpdateTodo(st, id, body);
    match Find(st.todos, id)
    case None =>
    case Some(i) =>
      assert forall k :: 0 <= k < |st.todos| ==> out.store.todos[k].id == st.todos[k].id;
  }

  /** Delete keeps the invariant, removes every record with the id (so a later
      GET answers 404), and leaves the counter alone (so the id is never handed out again). */
  lemma DeleteKeepsWellFormed(st: Store, id: nat)
    requires WellFormed(st)
    ensures WellFormed(DeleteTodo(st, id).store)
    ensures DeleteTodo(st, id).store.todos == Without(st.todos, id)
    ensures GetTodo(DeleteTodo(st, id).store, id) == NotFound
  {
    match Find(st.todos, id)
    case None =>
      WithoutAbsent(st.todos, id);
    case Some(i) =>
      RemoveAtKeepsWellFormed(st, i);
      WithoutAtFind(st.todos, id, i);
      var r := DeleteTodo(st, id).store.todos;
      forall k | 0 <= k < |r| ensures r[k].id != id {
        assert r[k] == st.todos[if k < i then k else k + 1];
      }
  }

  /** A record just created is found by GET under the id the response reports,
      with the title sent and completed false. */
  lemma GetAfterCreate(st: Store, title: string, completed: Option<bool>)
    requires WellFormed(st)
    ensures var out := CreateTodo(st, Some(Payload(Some(title), completed)));
      && out.response == Created(Todo(st.nextId, title, false))
      && GetTodo(out.store, st.nextId) == Ok(Todo(st.nextId, title, false))
  {
    var out := CreateTodo(st, Some(Payload(Some(title), completed)));
    CreateKeepsWellFormed(st, Some(Payload(Some(title), completed)));
    assert out.store.todos[|st.todos|] == Todo(st.nextId, title, false);
  }
}
