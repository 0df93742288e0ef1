/**
 The in-memory todo store behind the four HTTP handlers.

 The service keeps a table of live todos keyed by id and a process-wide id
 counter. Every handler holds the table lock for its whole critical section,
 so each handler is modelled here as one atomic, deterministic step: a pure
 function from the current state (and the request's arguments) to the next
 state and the response. The response carries the todo value instead of the
 HTML the template renders from it.
 */
module TodoStore {

  /** One todo record. `id` is assigned once, by Create, and never changes. */
  datatype Todo = Todo(id: nat, title: string, done: bool)

  /** The table of live todos keyed by id, and the id counter shared by all requests. */
  datatype State = State(todos: map<nat, Todo>, counter: nat)

  /** What a handler answers; the fragments are represented by the todos they render. */
  datatype Response =
    | Listed(items: set<Todo>)   // GET /     : the index page listing every todo
    | Created(todo: Todo)        // POST /    : the fragment of the new todo
    | Ok(todo: Todo)             // PUT /id   : the fragment of the toggled todo
    | OkEmpty                    // DELETE /id: an empty body
    | NotFound                   // PUT or DELETE of an absent id

  /** The next state together with the response sent back to the client. */
  datatype Step = Step(next: State, response: Response)

  /** The plain-text body of every not-found answer. */
  const NotFoundText: string := "todo not found"

  /** The HTTP status code of a response. */
  function Status(r: Response): (code: nat)
    ensures code == 200 || code == 201 || code == 404
    ensures code == 201 <==> r.Created?
    ensures code == 404 <==> r.NotFound?
  {
    match r
    case Listed(_) => 200
    case Created(_) => 201
    case Ok(_) => 200
    case OkEmpty => 200
    case NotFound => 404
  }

  /** The plain-text body of the responses that carry no rendered todo. */
  function TextBody(r: Response): (body: string)
    requires r.OkEmpty? || r.NotFound?
    ensures |body| == 0 <==> r.OkEmpty?
    ensures r.NotFound? ==> body == NotFoundText
  {
    if r.OkEmpty? then "" else NotFoundText
  }

  /** The store invariant: every key was issued by the counter already,
      and every entry's id is the key it is stored under. */
  predicate Valid(s: State)
  {
    forall k :: k in s.todos ==> k < s.counter && s.todos[k].id == k
  }

  /** The state at process start: an empty table and a counter at zero. */
  function Init(): (s: State)
    ensures Valid(s)
    ensures |s.todos| == 0 && s.counter == 0
  {
    State(map[], 0)
  }

  /** GET /: lists every stored todo, in no particular order, without changing anything. */
  function List(s: State): (r: Step)
    ensures r.next == s
    ensures r.response.Listed? && Status(r.response) == 200
    ensures forall k :: k in s.todos ==> s.todos[k] in r.response.items
    ensures forall t :: t in r.response.items ==> exists k :: k in s.todos && s.todos[k] == t
    ensures Valid(s) ==>
      forall t :: t in r.response.items <==> t.id in s.todos && s.todos[t.id] == t
  {
    Step(s, Listed(s.todos.Values))
  }

  /** POST /: takes the next id from the counter and stores a new, not yet done, todo under it. */
  function Create(s: State, title: string): (r: Step)
    ensures r.response.Created? && Status(r.response) == 201
    ensures r.response.todo.id == s.counter
    ensures r.response.todo.title == title && !r.response.todo.done
    ensures r.next.counter == s.counter + 1
    ensures forall k :: k in r.next.todos <==> k in s.todos || k == s.counter
    ensures r.next.todos[s.counter] == r.response.todo
    ensures forall k :: k in s.todos && k != s.counter ==> r.next.todos[k] == s.todos[k]
    ensures Valid(s) ==> s.counter !in s.todos && |r.next.todos| == |s.todos| + 1
    ensures Valid(s) ==> Valid(r.next)
  {
    var t := Todo(s.counter, title, false);
    Step(State(s.todos[s.counter := t], s.counter + 1), Created(t))
  }

  /** PUT /{id}: flips the done flag of the todo stored under `id`, or answers not found. */
  function Toggle(s: State, id: nat): (r: Step)
    ensures id in s.todos ==>
      && r.response.Ok? && Status(r.response) == 200
      && r.next.todos.Keys == s.todos.Keys
      && r.response.todo == r.next.todos[id]
      && r.next.todos[id].id == s.todos[id].id
      && r.next.todos[id].title == s.todos[id].title
      && r.next.todos[id].done == !s.todos[id].done
      && r.next.counter == s.counter
    ensures forall k :: k in s.todos && k != id ==> k in r.next.todos && r.next.todos[k] == s.todos[k]
    ensures id !in s.todos ==>
      r.next == s && r.response.NotFound? && Status(r.response) == 404 && TextBody(r.response) == NotFoundText
    ensures Valid(s) ==> Valid(r.next)
  {
    if id in s.todos then
      var t := s.todos[id].(done := !s.todos[id].done);
      Step(s.(todos := s.todos[id := t]), Ok(t))
    else
      Step(s, NotFound)
  }

  /** DELETE /{id}: removes the todo stored under `id`, or answers not found. */
  function Delete(s: State, id: nat): (r: Step)
    ensures id in s.todos ==>
      && r.response.OkEmpty? && Status(r.response) == 200 && TextBody(r.response) == ""
      && r.next.todos.Keys == s.todos.Keys - {id}
      && |r.next.todos| == |s.todos| - 1
    ensures forall k :: k in r.next.todos ==> k in s.todos && r.next.todos[k] == s.todos[k]
    ensures r.next.counter == s.counter
    ensures id !in s.todos ==>
      r.next == s && r.response.NotFound? && Status(r.response) == 404 && TextBody(r.response) == NotFoundText
    ensures Valid(s) ==> Valid(r.next)
  {
    if id in s.todos then
      Step(s.(todos := s.todos - {id}), OkEmpty)
    else
      Step(s, NotFound)
  }

  /** Toggling the same id twice gives back the state it started from. */
  lemma ToggleTwiceRestores(s: State, id: nat)
    ensures Toggle(Toggle(s, id).next, id).next == s
    ensures id in s.todos ==> Toggle(Toggle(s, id).next, id).response == Ok(s.todos[id])
  {
  }

  /** Deleting a present id succeeds once; repeating the delete answers not found and changes nothing. */
  lemma DeleteTwiceNotFound(s: State, id: nat)
    requires id in s.todos
    ensures Delete(s, id).response == OkEmpty
    ensures var again := Delete(Delete(s, id).next, id);
      again.response == NotFound && again.next == Delete(s, id).next
  {
  }

  /** Deleting the todo just created restores the table; only the counter has moved on. */
  lemma CreateThenDeleteRestores(s: State, title: string)
    requires Valid(s)
    ensures var d := Delete(Create(s, title).next, s.counter);
      d.response == OkEmpty && d.next == State(s.todos, s.counter + 1)
  {
  }

  /** In a table whose entries carry their own key as id, distinct keys hold distinct
      todos, so the set of stored todos is as large as the table. */
  lemma {:induction false} DistinctValues(m: map<nat, Todo>)
    requires forall k :: k in m ==> m[k].id == k
    ensures |m.Values| == |m|
    decreases |m|
  {
    if |m| != 0 {
      var k :| k in m;
      var rest := m - {k};
      assert |rest| == |m| - 1;
      DistinctValues(rest);
      assert m.Values == rest.Values + {m[k]} by {
        forall t | t in m.Values
          ensures t in rest.Values + {m[k]}
        {
          var j :| j in m && m[j] == t;
          if j != k {
            assert rest[j] == t;
          }
        }
        assert m[k] in m.Values;
        forall t | t in rest.Values
          ensures t in m.Values
        {
          var j :| j in rest && rest[j] == t;
          assert m[j] == t;
        }
      }
      assert m[k] !in rest.Values by {
        forall j | j in rest
          ensures rest[j] != m[k]
        {
          assert rest[j].id == j != k == m[k].id;
        }
      }
    }
  }

  /** The list page shows every stored todo exactly once: no two entries collapse into one. */
  lemma ListShowsEveryTodo(s: State)
    requires Valid(s)
    ensures |List(s).response.items| == |s.todos|
  {
    DistinctValues(s.todos);
  }
}
