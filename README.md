# In-memory todo store, modelled in Dafny

The service is a small Flask application. It keeps todo records in a
module-level list `todos` and hands out ids from a counter `next_id`, which
starts at 1. Five routes read and change them:

- GET /todos lists every record.
- GET /todos/<id> returns one record.
- POST /todos creates a record.
- PUT /todos/<id> updates a record in part.
- DELETE /todos/<id> removes a record.

Lookups are a linear scan in which the first match wins. A missing title on
create answers 400. An unknown id answers 404.

The project has three modules:

- `TodoModel` (todo_model.dfy) is the value-level specification. It holds the
  `Todo`, `Payload` (a JSON object reduced to its two optional keys),
  `Response` and `Store` datatypes. It has a pure function for four of the
  handlers. `CreateTodo`, `UpdateTodo` and `DeleteTodo` map the old store to
  the new store and the response. `GetTodo` returns only the response, because
  GET changes nothing. No `TodoModel` function answers the list route. The
  list is answered by `TodoRuns.Handle` and by `TodoApp.TodoStore.GetTodos`.
  The store invariant
  `WellFormed` says that ids are distinct, strictly increasing along the list,
  and all in 1 .. nextId - 1. Lemmas prove that every handler keeps it.
- `TodoRuns` (todo_runs.dfy) dispatches arbitrary request sequences. It proves
  properties that span many requests: the invariant survives every sequence,
  created ids strictly increase, and a deleted id never comes back. It also
  contains the create / list / complete / delete / get walk-through.
- `TodoApp` (todo_store.dfy) is the store in the form the service keeps it.
  Class `TodoStore` holds `todos: seq<TodoRecord>` and `nextId: nat`.
  `TodoRecord` is a class because PUT overwrites a dict's fields in place.
  `State()` is the abstraction from the objects to a `TodoModel.Store`. It is
  built on `Values`, which maps each record object to its value, in list order.
  `GetTodo`, `UpdateTodo` and `DeleteTodo` are methods with the same
  `for`-style scan and early return as the source. `CreateTodo` appends
  without a scan, as the source does. These four are proved to keep `Valid()`,
  and to leave `State()` and return exactly what the matching `TodoModel`
  function gives. `GetTodos` has no `TodoModel` counterpart. Its contract is
  stated directly against the record values. A client method, `Walkthrough`,
  runs the walk-through on a live store.

`todos.remove(todo)` removes the first element that is *equal* to the found
dict, not the found object itself. `TodoModel.DeleteTodo` models exactly
that. `RemoveFirstAtFind` proves it always removes the record the scan found,
because every earlier record has a different id.

The comment at app.py:107 promises to update whichever fields are present in
the request. With a JSON `null` body and a matching id, though,
`"title" in data` (app.py:108) raises a TypeError instead. The model follows
the code. `UpdateTodo` requires a body unless the id is
unknown. With a null body and an unknown id it still answers 404, because the
loop never reads the body.

## Model

| member | source | states |
|---|---|---|
| `TodoModel.Response.Status` | app.py:35-132 | 200 exactly for the list, a single todo and the delete confirmation; 201 exactly for Created; 404 exactly for NotFound; 400 exactly for BadRequest; so a 2xx code exactly for the success responses |
| `TodoModel.InitialWellFormed` | app.py:22-23 | the start state (empty list, counter 1) satisfies the store invariant |
| `TodoModel.Find` | app.py:47-48 | the scan returns the index of the first record with the id (every earlier record has another id), and returns None exactly when no record carries it |
| `TodoModel.GetTodo` | app.py:43-52 | Ok holds a record of the store with that id, and NotFound comes back exactly when no record has it; on a well-formed store Ok is the unique record with the id |
| `TodoModel.CreateTodo` | app.py:60-86 | BadRequest exactly when the body is absent or has no title key, and then the store is unchanged; otherwise it answers Created({id: old counter, title as sent, completed: false}), appends that record at the end and raises the counter by exactly 1; any present title, the empty string included, is accepted |
| `TodoModel.UpdateTodo` | app.py:94-115 | unknown id: NotFound and nothing changes; found id: the record at the scan's index keeps its id, takes the title only if the payload has one and the completed flag only if the payload has one, every other record and the order stay, the counter is unchanged, and every lookup by any id answers as before |
| `TodoModel.DeleteTodo` | app.py:123-132 | unknown id: NotFound and nothing changes; found id: Deleted and exactly the found record is removed, keeping the order of the rest; the counter never changes |
| `TodoModel.RemoveFirst` | app.py:129 | `list.remove(x)`: when x is in the list, exactly one element goes, and `RemoveFirstAt` states which. When x is not in the list, Python raises ValueError while the model returns the list unchanged; that case never arises, because delete_todo only removes the element it is iterating over (app.py:127-129) |
| `TodoModel.Patch` | app.py:107-111 | a payload key that is present overwrites its field; an absent key leaves it; the id never changes; an empty payload leaves the record as it was. `UpdateTodo` states its effect on the store |
| `TodoModel.SameIdsSameFind` | app.py:105-111 | two lists with the same ids at each position answer every lookup identically (so an update never changes which ids exist) |
| `TodoModel.RemoveFirstAt` | app.py:129 | `list.remove(x)` drops exactly the element at the first position holding x and keeps the rest in order |
| `TodoModel.RemoveFirstAtFind` | app.py:127-129 | `list.remove` of the found dict, which compares by value, removes exactly the element at the scan's index |
| `TodoModel.WithoutAtFind` | app.py:127-130 | on distinct ids, removing the found record equals removing every record with that id |
| `TodoModel.RemoveAtKeepsWellFormed` | app.py:129 | dropping one record from a well-formed store leaves it well formed |
| `TodoModel.CreateKeepsWellFormed` | app.py:77-84 | create keeps ids distinct, increasing and below the counter |
| `TodoModel.UpdateKeepsWellFormed` | app.py:105-113 | update keeps ids distinct, increasing and below the counter |
| `TodoModel.DeleteKeepsWellFormed` | app.py:127-130 | delete keeps the invariant, the result is the list without that id, and a later GET of that id answers NotFound |
| `TodoModel.GetAfterCreate` | app.py:47-86 | after a successful create, GET of the returned id yields that record with the title sent and completed false |
| `TodoRuns.Handle` | app.py:30-132 | a Created response reports the old counter and raises it by one; every other response leaves the counter; GET requests leave the store unchanged |
| `TodoRuns.HandleKeepsWellFormed` | app.py:30-132 | every request keeps the store invariant |
| `TodoRuns.RunKeepsWellFormed` | app.py:22-23 | the invariant holds after any sequence of requests, and the counter never decreases |
| `TodoRuns.CreatedIdsAscending` | app.py:77-84 | the ids returned by the creates in any request sequence strictly increase (so are unique) and lie between the initial and the final counter |
| `TodoRuns.HandleKeepsIdFree` | app.py:77-132 | an id below the counter that no record carries stays absent and below the counter after any single request |
| `TodoRuns.FreedIdStaysFree` | app.py:77-132 | such an id is never returned by a later create, and GET on it answers NotFound after any request sequence |
| `TodoRuns.DeletedIdNeverReturns` | app.py:127-130 | after a successful delete, no later request sequence recreates the id, and GET on it keeps answering NotFound |
| `TodoRuns.Scenario` | app.py:30-132 | create "Buy milk" gives {1, "Buy milk", false} with 201; list gives that one record; completing it gives {1, "Buy milk", true} with 200; delete gives 200; a later GET gives 404 |
| `TodoApp.RemoveAt` | app.py:129 | removing one record object keeps the other objects distinct and their values in order |
| `TodoApp.TodoRecord.constructor` | app.py:77-81 | a new record has the given id and title and completed false |
| `TodoApp.TodoStore.constructor` | app.py:22-23 | a new store is empty, its counter is 1, and it is valid |
| `TodoApp.TodoStore.GetTodos` | app.py:31-35 | returns every record's value in list order and changes nothing |
| `TodoApp.TodoStore.GetTodo` | app.py:43-52 | the scan with early return answers exactly as `TodoModel.GetTodo` on the current state, and changes nothing |
| `TodoApp.TodoStore.CreateTodo` | app.py:60-86 | keeps `Valid()`; new state and response are those of `TodoModel.CreateTodo`; on success the old record objects stay first and a fresh record is appended at the end; on BadRequest the list is untouched |
| `TodoApp.TodoStore.UpdateTodo` | app.py:94-115 | changes the found record's fields in place; new state and response are those of `TodoModel.UpdateTodo`; the list of objects and the counter stay the same; keeps `Valid()` |
| `TodoApp.TodoStore.DeleteTodo` | app.py:123-132 | keeps `Valid()`; new state and response are those of `TodoModel.DeleteTodo`, so the counter is untouched |

## Left out

- Flask routing, `jsonify`, `request.get_json()`, `abort` and `app.run` are not modelled. A response is one `Response` constructor, which stands for its status code and its JSON body or error message.
- Request parsing is not modelled. A body that yields no JSON object is `None`, and an object is reduced to its `title` and `completed` keys, which are the only keys the handlers read. Bodies that are JSON arrays, strings, numbers or booleans are not modelled. On POST a falsy body (0, false, "", []) answers 400 (app.py:74). A nonzero number or true makes `"title" in data` raise TypeError. A list or string is tested for membership or substring, and when that succeeds `data["title"]` raises TypeError (app.py:79). On PUT an unknown id answers 404 for every body (app.py:115). With a matching id, any number or boolean raises TypeError at app.py:108, and a list or string either leaves the record unchanged with 200 or raises TypeError at app.py:109 or 111.
- `UpdateTodo` (both `TodoModel.UpdateTodo` and `TodoApp.TodoStore.UpdateTodo`): requires a body whenever the id exists. The source raises a TypeError there, which is a server error, not a defined outcome.
- Dynamic typing of the stored values is not modelled. The source stores any JSON value as `title` or `completed`; the model uses `string` and `bool`.
- Ids are `nat`, because the `<int:...>` route converter only matches non-negative integers. Python integers are unbounded, so the counter has no wrap-around.
- Concurrency is not modelled. Nothing locks the globals; the model assumes requests are served one at a time.
- The request sequences in `TodoRuns` do not cover a PUT with a null body. `Request.Put` always carries a JSON object, so the 404 for a null body and an unknown id is proved only by `TodoModel.UpdateTodo` and `TodoApp.TodoStore.UpdateTodo`, not by the run lemmas.
- `Walkthrough` in `TodoApp` is a client of the class and has no contract of its own.
