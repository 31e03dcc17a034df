/**
 * The GraphQL resolvers of backend/index.js as functions from the document
 * before the call to the document after it and the answer. The methods of
 * `Store.Db` are proved to behave as these functions say; the lemmas in
 * `Properties` are stated about them.
 */
module Resolvers {
  import opened Records
  import opened Lookup

  /** The document after a resolver ran, and what the resolver answered. */
  datatype Reply<R> = Reply(doc: Document, result: Result<R>)

  /**
   * The id allocator shared by signup and addTodo: one more than the
   * collection's length. It looks at the length only, never at the ids
   * present, so it is not a high-water mark.
   */
  function NextId<T>(s: seq<T>): (id: int)
    ensures id == |s| + 1
    ensures id >= 1
  {
    |s| + 1
  }

  /** Mutation.signup: append a user whose id is the new length of `users`. */
  function Signup(d: Document, username: string, email: string): (o: Reply<User>)
    ensures o.result.Ok?
    ensures o.result.value.id == |d.users| + 1
    ensures o.result.value.username == username && o.result.value.email == email
    ensures |o.doc.users| == |d.users| + 1
    ensures o.doc.users[..|d.users|] == d.users && o.doc.users[|d.users|] == o.result.value
    ensures o.doc.todos == d.todos
  {
    var user := User(NextId(d.users), username, email);
    assert (d.users + [user])[..|d.users|] == d.users;
    Reply(d.(users := d.users + [user]), Ok(user))
  }

  /** Mutation.login: the first user with both fields equal, or "User not found". */
  function Login(d: Document, username: string, email: string): (r: Result<User>)
    ensures r.Ok? <==> HasUser(d.users, username, email)
    ensures r.Ok? ==> Matches(r.value, username, email)
    ensures r.Ok? ==> exists k :: IsFirstUser(d.users, username, email, k) && r.value == d.users[k]
    ensures r.Err? ==> r.error == UserNotFound
  {
    match FirstUser(d.users, username, email)
    case None => Err(UserNotFound)
    case Some(k) => Ok(d.users[k])
  }

  /** Mutation.addTodo: append an uncompleted todo whose id is the new length of `todos`. */
  function AddTodo(d: Document, userId: string, task: string): (o: Reply<Todo>)
    ensures o.result.Ok?
    ensures o.result.value == Todo(|d.todos| + 1, userId, task, false)
    ensures |o.doc.todos| == |d.todos| + 1
    ensures o.doc.todos[..|d.todos|] == d.todos && o.doc.todos[|d.todos|] == o.result.value
    ensures o.doc.users == d.users
  {
    var todo := Todo(NextId(d.todos), userId, task, false);
    assert (d.todos + [todo])[..|d.todos|] == d.todos;
    Reply(d.(todos := d.todos + [todo]), Ok(todo))
  }

  /** `splice(k, 1)`: drop the element at `k`, shifting the later ones down by one. */
  function Spliced<T>(s: seq<T>, k: nat): (r: seq<T>)
    requires k < |s|
    ensures |r| == |s| - 1
    ensures forall j :: 0 <= j < k ==> r[j] == s[j]
    ensures forall j :: k <= j < |r| ==> r[j] == s[j + 1]
    ensures multiset(r) + multiset{s[k]} == multiset(s)
  {
    assert s == s[..k] + [s[k]] + s[k + 1..];
    s[..k] + s[k + 1..]
  }

  /** Mutation.deleteTodo: splice out the first todo with this id and answer it. */
  function DeleteTodo(d: Document, id: int): (o: Reply<Todo>)
    ensures o.doc.users == d.users
    ensures o.result.Ok? <==> HasTodo(d.todos, id)
    ensures o.result.Err? ==> o.doc == d && o.result.error == TodoNotFound
    ensures o.result.Ok? ==>
      |o.doc.todos| == |d.todos| - 1 &&
      multiset(o.doc.todos) + multiset{o.result.value} == multiset(d.todos)
    ensures o.result.Ok? ==>
      exists k :: IsFirstTodo(d.todos, id, k) && o.result.value == d.todos[k] &&
        (forall j :: 0 <= j < k ==> o.doc.todos[j] == d.todos[j]) &&
        (forall j :: k <= j < |o.doc.todos| ==> o.doc.todos[j] == d.todos[j + 1])
  {
    match FirstTodo(d.todos, id)
    case None => Reply(d, Err(TodoNotFound))
    case Some(k) => Reply(d.(todos := Spliced(d.todos, k)), Ok(d.todos[k]))
  }

  /** Mutation.completeTodo: flip `completed` of the first todo with this id and answer it. */
  function CompleteTodo(d: Document, id: int): (o: Reply<Todo>)
    ensures o.doc.users == d.users && |o.doc.todos| == |d.todos|
    ensures o.result.Ok? <==> HasTodo(d.todos, id)
    ensures o.result.Err? ==> o.doc == d && o.result.error == TodoNotFound
    ensures o.result.Ok? ==>
      exists k :: IsFirstTodo(d.todos, id, k) && o.result.value == o.doc.todos[k] &&
        o.doc.todos[k].id == d.todos[k].id &&
        o.doc.todos[k].userId == d.todos[k].userId &&
        o.doc.todos[k].task == d.todos[k].task &&
        o.doc.todos[k].completed == !d.todos[k].completed &&
        forall j :: 0 <= j < |d.todos| && j != k ==> o.doc.todos[j] == d.todos[j]
  {
    match FirstTodo(d.todos, id)
    case None => Reply(d, Err(TodoNotFound))
    case Some(k) =>
      var done := d.todos[k].(completed := !d.todos[k].completed);
      Reply(d.(todos := d.todos[k := done]), Ok(done))
  }

  /** Mutation.updateTodoTask: replace the task of the first todo with this id and answer it. */
  function UpdateTodoTask(d: Document, id: int, task: string): (o: Reply<Todo>)
    ensures o.doc.users == d.users && |o.doc.todos| == |d.todos|
    ensures o.result.Ok? <==> HasTodo(d.todos, id)
    ensures o.result.Err? ==> o.doc == d && o.result.error == TodoNotFound
    ensures o.result.Ok? ==>
      exists k :: IsFirstTodo(d.todos, id, k) && o.result.value == o.doc.todos[k] &&
        o.doc.todos[k].id == d.todos[k].id &&
        o.doc.todos[k].userId == d.todos[k].userId &&
        o.doc.todos[k].completed == d.todos[k].completed &&
        o.doc.todos[k].task == task &&
        forall j :: 0 <= j < |d.todos| && j != k ==> o.doc.todos[j] == d.todos[j]
  {
    match FirstTodo(d.todos, id)
    case None => Reply(d, Err(TodoNotFound))
    case Some(k) =>
      var updated := d.todos[k].(task := task);
      Reply(d.(todos := d.todos[k := updated]), Ok(updated))
  }
}
