# Todo store of an axum/askama/htmx example service

The service keeps an in-memory table of todos, `HashMap<usize, Todo>`, plus a
process-wide id counter `ID_COUNTER`. It serves four HTTP handlers over them:

- `root` (GET /) lists every todo.
- `create_todo` (POST /) takes a fresh id from the counter and stores a new todo with `done = false`.
- `done` (PUT /{id}) flips the `done` flag of one todo, or answers 404 `todo not found`.
- `delete_todo` (DELETE /{id}) removes one todo, or answers 404 `todo not found`.

Each handler holds the table's mutex for its whole critical section. So at the
level of the store, execution is a sequence of atomic steps. The model is a
deterministic state machine over immutable values:

- `todo_store.dfy`, module `TodoStore`, holds the data model: `Todo`, `State` (the table and the counter), `Response` and `Step`.
  It has one pure transition function per handler: `List`, `Create`, `Toggle` and `Delete`.
  It also holds the store invariant `Valid`: every key is below the counter, and every entry's `id` equals its key.
  Finally it holds the single-step lemmas: toggle is an involution, a second delete answers 404, and create-then-delete restores the table.
- `todo_trace.dfy`, module `TodoTrace`, routes a `Request` to its handler (`Handle`) and runs request sequences (`Run`).
  It proves what holds of every run: the invariant is preserved, the counter never goes back, issued ids are consecutive and distinct, and a deleted id is never reissued.
  It also proves that a batch of creates leaves every new todo stored and listed, which is what concurrent creates amount to once the lock has serialised them.

A response is modelled by the todo value the template would render (`Created(todo)`, `Ok(todo)`, `Listed(items)`).
The bodies without a rendered todo are `OkEmpty` (empty body) and `NotFound` (body `todo not found`).
`Status` gives each response its HTTP status code.

## Model

| member | source | states |
|---|---|---|
| TodoStore.Init | src/main.rs:118 | The store starts with an empty table (the `HashMap::new()` here) and the counter at zero (`ID_COUNTER` starts at 0, src/main.rs:20), and this state satisfies the invariant. |
| TodoStore.Status | src/main.rs:68-113 | Every response has status 200, 201 or 404. It is 201 exactly for a create answer, as at src/main.rs:69. It is 404 exactly for a not-found answer, as at src/main.rs:90 and :110. Everything else is 200: the list page (`Html`'s default at src/main.rs:54), the toggled fragment at :84 and the delete answer at :104. |
| TodoStore.TextBody | src/main.rs:89-113 | Of the answers without a rendered todo, the body is empty exactly for a successful delete (src/main.rs:106). A not-found answer carries `todo not found` (src/main.rs:91, 111). |
| TodoStore.List | src/main.rs:47-55 | Listing is read-only and answers 200. A todo is listed exactly when it is stored under its own id, so every stored todo appears and nothing else does. |
| TodoStore.Create | src/main.rs:56-73 | Create answers 201 with a todo whose id is the old counter, whose title is the given title and whose done flag is false. The counter grows by exactly one and the table gains exactly that key. Under the invariant the key was free, so no entry is overwritten, every other entry is unchanged, and the invariant still holds. |
| TodoStore.Toggle | src/main.rs:75-94 | On a present id, toggle answers 200 with the updated todo. Only that entry's done flag flips; its id and title, every other entry, the key set and the counter stay the same. On an absent id it answers 404 with body `todo not found` and leaves the state untouched. The invariant is preserved. |
| TodoStore.Delete | src/main.rs:96-114 | On a present id, delete answers 200 with an empty body and removes exactly that key. Every remaining entry is unchanged and the counter is untouched. On an absent id it answers 404 with body `todo not found` and leaves the state untouched. The invariant is preserved. |
| TodoStore.ToggleTwiceRestores | src/main.rs:82 | Toggling the same id twice yields the original state; on a present id the second answer carries the original todo. |
| TodoStore.DeleteTwiceNotFound | src/main.rs:100-113 | Deleting a present id answers 200 once; deleting it again answers 404 and changes nothing. |
| TodoStore.CreateThenDeleteRestores | src/main.rs:61-67 | Deleting the todo just created restores the table exactly; only the counter has advanced. |
| TodoStore.DistinctValues | src/main.rs:36-40 | In a table whose entries carry their key as id, no two keys hold the same todo, so the set of stored todos is as large as the table. |
| TodoStore.ListShowsEveryTodo | src/main.rs:49 | Under the invariant the list has exactly as many todos as the table has entries. |
| TodoTrace.Handle | src/main.rs:119-124 | Routing is done by the body, one route per handler. The contract states that only POST / advances the counter, by exactly one. A 201 answer comes exactly from POST / and carries the old counter as id. The only key a request can add is the old counter value. From a valid state, an entry that stays in the table keeps its id and title. |
| TodoTrace.Run | src/main.rs:20 | Running a sequence of requests gives one response per request, and the counter never decreases. |
| TodoTrace.RunPreservesValid | src/main.rs:61-67 | Every sequence of requests from a valid state ends in a valid state. |
| TodoTrace.ReachableValid | src/main.rs:118 | Every state reachable from process start satisfies the invariant. |
| TodoTrace.IssuedIdsAreConsecutive | src/main.rs:61 | The ids handed out by a run are the counter values it consumed, in order: the i-th is the initial counter plus i, and the counter ends just past the last one. |
| TodoTrace.IssuedIdsDistinct | src/main.rs:61 | Ids issued within a run strictly increase, so no id is issued twice. |
| TodoTrace.RunKeysOrigin | src/main.rs:61-67 | Every key in the table after a run was already there, or is at least the counter the run started from. |
| TodoTrace.StoredTodoKeepsIdAndTitle | src/main.rs:61-67 | Across any run from a valid state, a todo whose key is still in the table keeps its id and title. Only its done flag can change (src/main.rs:82), so an id is never reassigned to a different title. |
| TodoTrace.DeletedIdNeverReissued | src/main.rs:101 | Once a todo is deleted its id is retired: no later create issues it, and no later table holds it. |
| TodoTrace.RunPostsIsCreateAll | src/main.rs:121 | A run of POST / requests, one per title, gives the same final state and the same responses as applying the create handler to each title in turn. |
| TodoTrace.CreateAllKeeps | src/main.rs:67 | A batch of creates from a valid state keeps every earlier todo in the table, unchanged. |
| TodoTrace.CreateAllStores | src/main.rs:61-67 | After a batch of creates from a valid state, the counter has advanced by the batch size. Each new todo is stored under its own id, with its title, and not done. |
| TodoTrace.CreateAllResponds | src/main.rs:68-72 | Every response to a batch of creates is a 201 carrying the todo that request created. |
| TodoTrace.CreateAllListed | src/main.rs:47-49 | After a batch of creates from a valid state, a subsequent list shows every todo the batch created. |
| TodoTrace.ExampleSession | src/main.rs:56-114 | From process start, the session create, toggle, toggle, delete, delete, toggle of id 999 answers 201, 200 (done), 200 (not done), 200, 404, 404, and ends with an empty table and counter 1. |

## Left out

- HTTP plumbing is not modelled: axum routing, `Form` and `Path` extraction and their decoding failures, headers, and the listener in `main`. These are framework I/O. A request reaches the model already decoded: a title string or a natural-number id.
- Concurrency is not modelled: the tokio `Mutex`, async suspension, and the `Relaxed` ordering of `fetch_add`. Each handler's critical section is one atomic step, and an interleaving of requests is one request sequence in `TodoTrace.Run`.
- Askama rendering (`render().unwrap()`) is not modelled, nor is its panic path. A response carries the `Todo` values instead of HTML.
- TodoStore.Create: ids and the counter are unbounded `nat`s. The source's `usize` counter would wrap at `usize::MAX`, and then create could overwrite an existing entry. The freshness properties hold only below that bound.
- TodoStore.List: the source collects the table's values into a `Vec` in hash-map iteration order. The model returns them as a set, because the order is unspecified.

## Notes on the source

- The source's `insert` would overwrite an entry already stored under the new id. `Create` models that update as written. Its contract proves the overwrite cannot happen in any state satisfying the invariant, which includes every reachable state.
- `create_todo` applies no validation to the title; the empty title is accepted, and `Create` takes any string.
