/** The store as the service keeps it: a mutable list of mutable records and a
    counter, changed in place by the handlers. GetTodo, CreateTodo, UpdateTodo
    and DeleteTodo are proved to leave the store and answer exactly as the
    matching function of TodoModel says; GetTodos is stated directly against
    the values of the records. */
module TodoApp {
  import opened TodoModel

  /** One todo dict; PUT overwrites its fields in place. */
  class TodoRecord {
    var id: nat
    var title: string
    var completed: bool

    constructor (id: nat, title: string)
      ensures this.id == id && this.title == title && !completed
    {
      this.id := id;
      this.title := title;
      this.completed := false;
    }

    /** The record as a value, i.e. what jsonify sends for it. */
    function Value(): (t: Todo)
      reads this
    {
      Todo(id, title, completed)
    }
  }

  /** The values of the records, in list order. */
  function Values(s: seq<TodoRecord>): (v: seq<Todo>)
    reads s
    ensures |v| == |s| && forall k :: 0 <= k < |s| ==> v[k] == s[k].Value()
  {
    seq(|s|, k requires 0 <= k < |s| reads s => s[k].Value())
  }

  predicate Distinct(s: seq<TodoRecord>) {
    forall j, k :: 0 <= j < k < |s| ==> s[j] != s[k]
  }

  /** Taking one record out of the list keeps the others distinct and in order. */
  lemma RemoveAt(s: seq<TodoRecord>, i: nat)
    requires Distinct(s) && i < |s|
    ensures Distinct(s[..i] + s[i + 1..])
    ensures Values(s[..i] + s[i + 1..]) == Values(s)[..i] + Values(s)[i + 1..]
  {
    var r := s[..i] + s[i + 1..];
    assert forall k :: 0 <= k < |r| ==> r[k] == s[if k < i then k else k + 1];
  }

  class TodoStore {
    var todos: seq<TodoRecord>
    var nextId: nat

    /** The list never holds one record twice, and its values satisfy the store invariant. */
    ghost predicate Valid()
      reads this, todos
    {
      && Distinct(todos)
      && WellFormed(State())
    }

    /** The store as a value. */
    function State(): (st: Store)
      reads this, todos
    {
      Store(Values(todos), nextId)
    }

    constructor ()
      ensures Valid() && State() == Initial
    {
      todos := [];
      nextId := 1;
    }

    /** GET /todos: the whole list, in insertion order. */
    method GetTodos() returns (r: Response)
      ensures r.Listed? && |r.todos| == |todos|
      ensures forall k :: 0 <= k < |todos| ==> r.todos[k] == todos[k].Value()
    {
      r := Listed(Values(todos));
    }

    /** GET /todos/<id>, by a scan from the front. */
    method GetTodo(id: nat) returns (r: Response)
      ensures r == TodoModel.GetTodo(State(), id)
    {
      var i := 0;
      while i < |todos|
        invariant 0 <= i <= |todos|
        invariant forall k :: 0 <= k < i ==> todos[k].id != id
      {
        if todos[i].id == id {
          assert Find(State().todos, id) == Some(i);
          r := Ok(todos[i].Value());
          return;
        }
        i := i + 1;
      }
      r := NotFound;
    }

    /** POST /todos. */
    method CreateTodo(body: Option<Payload>) returns (r: Response)
      requires Valid()
      modifies this
      ensures Valid()
      ensures Step(State(), r) == TodoModel.CreateTodo(old(State()), body)
      ensures r.Created? ==> todos[..|todos| - 1] == old(todos) && fresh(todos[|todos| - 1])
      ensures r.BadRequest? ==> todos == old(todos)
    {
      if body.None? || body.value.title.None? {
        r := BadRequest;
        return;
      }
      CreateKeepsWellFormed(State(), body);
      var t := new TodoRecord(nextId, body.value.title.value);
      todos := todos + [t];
      nextId := nextId + 1;
      r := Created(t.Value());
      assert Values(todos) == old(Values(todos)) + [t.Value()];
    }

    /** PUT /todos/<id>: the found record is changed in place; the ids and the
        list itself stay as they are. */
    method UpdateTodo(id: nat, body: Option<Payload>) returns (r: Response)
      requires Valid()
      requires body.Some? || Find(State().todos, id).None?
      modifies todos
      ensures Valid()
      ensures todos == old(todos) && nextId == old(nextId)
      ensures Step(State(), r) == TodoModel.UpdateTodo(old(State()), id, body)
    {
      var i := 0;
      while i < |todos|
        invariant 0 <= i <= |todos|
        invariant forall k :: 0 <= k < i ==> todos[k].id != id
      {
        var t := todos[i];
        if t.id == id {
          assert Find(State().todos, id) == Some(i);
          ghost var before := State();
          UpdateKeepsWellFormed(before, id, body);
          if body.value.title.Some? {
            t.title := body.value.title.value;
          }
          if body.value.completed.Some? {
            t.completed := body.value.completed.value;
          }
          r := Ok(t.Value());
          assert Values(todos) == before.todos[i := Patch(before.todos[i], body.value)];
          return;
        }
        i := i + 1;
      }
      r := NotFound;
    }

    /** DELETE /todos/<id>: the found record leaves the list; the counter stays. */
    method DeleteTodo(id: nat) returns (r: Response)
      requires Valid()
      modifies this
      ensures Valid()
      ensures Step(State(), r) == TodoModel.DeleteTodo(old(State()), id)
    {
      var i := 0;
      while i < |todos|
        invariant 0 <= i <= |todos|
        invariant forall k :: 0 <= k < i ==> todos[k].id != id
      {
        if todos[i].id == id {
          assert Find(State().todos, id) == Some(i);
          ghost var before := State();
          DeleteKeepsWellFormed(before, id);
          RemoveAt(todos, i);
          todos := todos[..i] + todos[i + 1..];
          r := Deleted;
          assert Values(todos) == before.todos[..i] + before.todos[i + 1..];
          return;
        }
        i := i + 1;
      }
      r := NotFound;
    }
  }

  /** A client of the store: the walk-through of the service, from an empty store. */
  method Walkthrough() {
    var store := new TodoStore();
    var c := store.CreateTodo(Some(Payload(Some("Buy milk"), None)));
    assert c == Created(Todo(1, "Buy milk", false)) && c.Status() == 201;
    var l := store.GetTodos();
    assert l == Listed([Todo(1, "Buy milk", false)]);
    var u := store.UpdateTodo(1, Some(Payload(None, Some(true))));
    assert u == Ok(Todo(1, "Buy milk", true)) && u.Status() == 200;
    var d := store.DeleteTodo(1);
    assert d == Deleted;
    var g := store.GetTodo(1);
    assert g == NotFound && g.Status() == 404;
  }
}
