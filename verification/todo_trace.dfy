/**
 Sequences of requests against the todo store.

 The table lock serialises every handler, so any interleaving of requests is
 one sequence of atomic steps. This module dispatches a request to its
 handler, runs a sequence of requests from a state, and proves what holds of
 every such run: the store invariant, the monotone counter, and that no id is
 ever issued twice or reissued after its todo was deleted.
 */
module TodoTrace {
  import opened TodoStore

  /** One request, by route: GET /, POST / with a title, PUT /{id}, DELETE /{id}. */
  datatype Request =
    | GetRoot
    | PostTodo(title: string)
    | PutDone(id: nat)
    | DeleteTodo(id: nat)

  /** The state after a run and the responses it produced, in request order. */
  datatype Trace = Trace(final: State, responses: seq<Response>)

  /** Routes a request to its handler. Only POST / moves the counter, and by exactly one. */
  function Handle(s: State, q: Request): (r: Step)
    ensures Valid(s) ==> Valid(r.next)
    ensures q.PostTodo? ==> r.next.counter == s.counter + 1
    ensures !q.PostTodo? ==> r.next.counter == s.counter
    ensures r.response.Created? <==> q.PostTodo?
    ensures r.response.Created? ==> r.response.todo.id == s.counter
    ensures forall k :: k in r.next.todos ==> k in s.todos || k == s.counter
    ensures Valid(s) ==> forall k :: k in s.todos && k in r.next.todos ==>
      r.next.todos[k].id == s.todos[k].id && r.next.todos[k].title == s.todos[k].title
  {
    match q
    case GetRoot => List(s)
    case PostTodo(title) => Create(s, title)
    case PutDone(id) => Toggle(s, id)
    case DeleteTodo(id) => Delete(s, id)
  }

  /** Handles the requests one after another, each in its own critical section. */
  function Run(s: State, qs: seq<Request>): (t: Trace)
    ensures |t.responses| == |qs|
    ensures s.counter <= t.final.counter
    decreases |qs|
  {
    if qs == [] then
      Trace(s, [])
    else
      var first := Handle(s, qs[0]);
      var rest := Run(first.next, qs[1..]);
      Trace(rest.final, [first.response] + rest.responses)
  }

  /** The ids handed out by the create responses of a run, in order. */
  function IssuedIds(rs: seq<Response>): seq<nat>
  {
    if rs == [] then []
    else if rs[0].Created? then [rs[0].todo.id] + IssuedIds(rs[1..])
    else IssuedIds(rs[1..])
  }

  /** Every run from a valid state ends in a valid state. */
  lemma {:induction false} RunPreservesValid(s: State, qs: seq<Request>)
    requires Valid(s)
    ensures Valid(Run(s, qs).final)
    decreases |qs|
  {
    if qs != [] {
      RunPreservesValid(Handle(s, qs[0]).next, qs[1..]);
    }
  }

  /** Every state reachable from process start satisfies the store invariant. */
  lemma ReachableValid(qs: seq<Request>)
    ensures Valid(Run(Init(), qs).final)
  {
    RunPreservesValid(Init(), qs);
  }

  /** The ids a run issues are exactly the counter values it consumed:
      they start at the initial counter, increase by one each time, and
      the counter ends just past the last of them. */
  lemma {:induction false} IssuedIdsAreConsecutive(s: State, qs: seq<Request>)
    ensures var t := Run(s, qs);
      t.final.counter == s.counter + |IssuedIds(t.responses)|
    ensures var ids := IssuedIds(Run(s, qs).responses);
      forall i :: 0 <= i < |ids| ==> ids[i] == s.counter + i
    decreases |qs|
  {
    if qs != [] {
      var first := Handle(s, qs[0]);
      var rest := Run(first.next, qs[1..]);
      IssuedIdsAreConsecutive(first.next, qs[1..]);
      var rs := [first.response] + rest.responses;
      assert rs[1..] == rest.responses;
      assert Run(s, qs).responses == rs;
    }
  }

  /** No id is ever issued twice within a run. */
  lemma IssuedIdsDistinct(s: State, qs: seq<Request>)
    ensures var ids := IssuedIds(Run(s, qs).responses);
      forall i, j :: 0 <= i < j < |ids| ==> ids[i] < ids[j]
  {
    IssuedIdsAreConsecutive(s, qs);
  }

  /** Every key of the table after a run was already in the table, or was issued during the run. */
  lemma {:induction false} RunKeysOrigin(s: State, qs: seq<Request>)
    ensures forall k :: k in Run(s, qs).final.todos ==> k in s.todos || s.counter <= k
    decreases |qs|
  {
    if qs != [] {
      RunKeysOrigin(Handle(s, qs[0]).next, qs[1..]);
    }
  }

  /** Once a todo is deleted its id is retired: no later create issues it again,
      and no later state of the table holds it. */
  lemma DeletedIdNeverReissued(s: State, id: nat, qs: seq<Request>)
    requires Valid(s)
    requires id in s.todos
    ensures var d := Delete(s, id);
      var t := Run(d.next, qs);
      id !in IssuedIds(t.responses) && id !in t.final.todos
  {
    var d := Delete(s, id);
    IssuedIdsAreConsecutive(d.next, qs);
    RunKeysOrigin(d.next, qs);
  }

  /** A stored todo never changes its id or title: for as long as its key stays in the
      table, the entry under it carries the id and title it had. No request can
      reassign the id to a different title. */
  lemma {:induction false} StoredTodoKeepsIdAndTitle(s: State, qs: seq<Request>, k: nat)
    requires Valid(s) && k in s.todos
    ensures var f := Run(s, qs).final;
      k in f.todos ==> f.todos[k].id == s.todos[k].id && f.todos[k].title == s.todos[k].title
    decreases |qs|
  {
    if qs != [] {
      var first := Handle(s, qs[0]).next;
      if k in first.todos {
        StoredTodoKeepsIdAndTitle(first, qs[1..], k);
      } else {
        RunKeysOrigin(first, qs[1..]);
      }
    }
  }

  /** A batch of POST / requests, one per title. */
  function Posts(titles: seq<string>): (qs: seq<Request>)
    ensures |qs| == |titles|
    ensures forall i :: 0 <= i < |qs| ==> qs[i] == PostTodo(titles[i])
  {
    if titles == [] then [] else [PostTodo(titles[0])] + Posts(titles[1..])
  }

  /** The todo the i-th request of a batch creates, when the batch starts at counter `c`. */
  function BatchTodo(c: nat, titles: seq<string>, i: nat): Todo
    requires i < |titles|
  {
    Todo(c + i, titles[i], false)
  }

  /** Every todo of the batch is stored under its own id in `todos`. */
  predicate StoresBatch(c: nat, titles: seq<string>, todos: map<nat, Todo>)
  {
    forall k {:trigger k in todos} :: c <= k < c + |titles| ==> k in todos && todos[k] == BatchTodo(c, titles, k - c)
  }

  /** A batch is stored once its first todo is, and the rest of the batch after it,
      which starts at counter `next`, one past `c`. */
  lemma StoresBatchCons(c: nat, titles: seq<string>, todos: map<nat, Todo>, next: nat)
    requires titles != []
    requires c in todos && todos[c] == BatchTodo(c, titles, 0)
    requires next == c + 1 && StoresBatch(next, titles[1..], todos)
    ensures StoresBatch(c, titles, todos)
  {
    forall k | c < k < c + |titles|
      ensures k in todos && todos[k] == BatchTodo(c, titles, k - c)
    {
      assert BatchTodo(next, titles[1..], k - next) == BatchTodo(c, titles, k - c);
    }
  }

  /** A batch of creates, run by the create handler alone. */
  function CreateAll(s: State, titles: seq<string>): (t: Trace)
    ensures |t.responses| == |titles|
    decreases |titles|
  {
    if titles == [] then
      Trace(s, [])
    else
      var first := Create(s, titles[0]);
      var rest := CreateAll(first.next, titles[1..]);
      Trace(rest.final, [first.response] + rest.responses)
  }

  /** Running a batch of POST / requests is running the create handler on each title in turn. */
  lemma {:induction false} RunPostsIsCreateAll(s: State, titles: seq<string>)
    ensures Run(s, Posts(titles)) == CreateAll(s, titles)
    decreases |titles|
  {
    if titles != [] {
      var qs := Posts(titles);
      assert Handle(s, qs[0]) == Create(s, titles[0]);
      assert qs[1..] == Posts(titles[1..]);
      RunPostsIsCreateAll(Create(s, titles[0]).next, titles[1..]);
    }
  }

  /** A batch of creates from a valid state keeps every earlier todo in place, unchanged. */
  lemma {:induction false} CreateAllKeeps(s: State, titles: seq<string>)
    requires Valid(s)
    ensures var r := CreateAll(s, titles).final;
      forall k :: k in s.todos ==> k in r.todos && r.todos[k] == s.todos[k]
    decreases |titles|
  {
    if titles != [] {
      CreateAllKeeps(Create(s, titles[0]).next, titles[1..]);
    }
  }

  /** A batch of creates from a valid state stores every new todo under the id it was
      given and moves the counter past the whole batch. */
  lemma {:induction false} CreateAllStores(s: State, titles: seq<string>)
    requires Valid(s)
    ensures var r := CreateAll(s, titles).final;
      r.counter == s.counter + |titles| && StoresBatch(s.counter, titles, r.todos)
    decreases |titles|
  {
    if titles != [] {
      var first := Create(s, titles[0]).next;
      CreateAllStores(first, titles[1..]);
      CreateAllKeeps(first, titles[1..]);
      var r := CreateAll(first, titles[1..]).final;
      assert s.counter in first.todos;
      assert r.todos[s.counter] == BatchTodo(s.counter, titles, 0);
      StoresBatchCons(s.counter, titles, r.todos, first.counter);
    }
  }

  /** Every response of the batch is the 201 carrying the todo its request created. */
  predicate RespondsBatch(c: nat, titles: seq<string>, rs: seq<Response>)
  {
    |rs| == |titles| && forall i :: 0 <= i < |titles| ==> rs[i] == Created(BatchTodo(c, titles, i))
  }

  /** A batch responds as it should once its first request does, and the rest of the batch after it. */
  lemma RespondsBatchCons(c: nat, titles: seq<string>, rs: seq<Response>)
    requires titles != [] && |rs| == |titles|
    requires rs[0] == Created(BatchTodo(c, titles, 0))
    requires RespondsBatch(c + 1, titles[1..], rs[1..])
    ensures RespondsBatch(c, titles, rs)
  {
    forall i | 0 < i < |titles|
      ensures rs[i] == Created(BatchTodo(c, titles, i))
    {
      assert rs[i] == rs[1..][i - 1];
      assert BatchTodo(c + 1, titles[1..], i - 1) == BatchTodo(c, titles, i);
    }
  }

  /** Every response to a batch of creates is a 201 carrying the todo the request created. */
  lemma {:induction false} CreateAllResponds(s: State, titles: seq<string>)
    ensures RespondsBatch(s.counter, titles, CreateAll(s, titles).responses)
    decreases |titles|
  {
    if titles != [] {
      var first := Create(s, titles[0]);
      CreateAllResponds(first.next, titles[1..]);
      var rest := CreateAll(first.next, titles[1..]).responses;
      var rs := CreateAll(s, titles).responses;
      assert rs == [first.response] + rest;
      assert rs[1..] == rest;
      RespondsBatchCons(s.counter, titles, rs);
    }
  }

  /** After a batch of creates from a valid state the list page shows every new todo. */
  lemma {:induction false} CreateAllListed(s: State, titles: seq<string>)
    requires Valid(s)
    ensures var items := List(CreateAll(s, titles).final).response.items;
      forall i :: 0 <= i < |titles| ==> BatchTodo(s.counter, titles, i) in items
  {
    CreateAllStores(s, titles);
    var todos := CreateAll(s, titles).final.todos;
    forall i | 0 <= i < |titles|
      ensures BatchTodo(s.counter, titles, i) in todos.Values
    {
      assert todos[s.counter + i] == BatchTodo(s.counter, titles, i);
    }
  }

  /** A session from process start: create, toggle twice, delete twice, toggle an id never issued. */
  lemma ExampleSession()
    ensures var t := Run(Init(), [PostTodo("Buy milk"), PutDone(0), PutDone(0),
                                  DeleteTodo(0), DeleteTodo(0), PutDone(999)]);
      && t.responses == [Created(Todo(0, "Buy milk", false)), Ok(Todo(0, "Buy milk", true)),
                         Ok(Todo(0, "Buy milk", false)), OkEmpty, NotFound, NotFound]
      && t.final == State(map[], 1)
  {
    // The states between the requests, so that each step is one handler call.
    var milk := Todo(0, "Buy milk", false);
    var s1 := State(map[0 := milk], 1);
    var s2 := State(map[0 := milk.(done := true)], 1);
    assert Handle(Init(), PostTodo("Buy milk")) == Step(s1, Created(milk));
    assert Handle(s1, PutDone(0)) == Step(s2, Ok(milk.(done := true)));
    assert Handle(s2, PutDone(0)) == Step(s1, Ok(milk));
    assert Handle(s1, DeleteTodo(0)) == Step(State(map[], 1), OkEmpty);
  }
}
