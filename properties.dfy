/**
 * Properties of the resolvers: what repeated calls do, how lookups behave
 * after a mutation, and how the length-based id allocator interacts with
 * deletion.
 */
module Properties {
  import opened Records
  import opened Lookup
  import opened Resolvers

  ghost predicate UniqueTodoIds(todos: seq<Todo>) {
    forall i, j :: 0 <= i < |todos| && 0 <= j < |todos| && todos[i].id == todos[j].id ==> i == j
  }

  /** The ids are 1, 2, ..., n in order: what addTodo produces when nothing is ever deleted. */
  ghost predicate DenseTodoIds(todos: seq<Todo>) {
    forall i :: 0 <= i < |todos| ==> todos[i].id == i + 1
  }

  ghost predicate UniqueUserIds(users: seq<User>) {
    forall i, j :: 0 <= i < |users| && 0 <= j < |users| && users[i].id == users[j].id ==> i == j
  }

  ghost predicate DenseUserIds(users: seq<User>) {
    forall i :: 0 <= i < |users| ==> users[i].id == i + 1
  }

  /** The todo lookup looks at ids only: two sequences with the same ids agree on every search. */
  lemma {:induction false} FirstTodoSameIds(s: seq<Todo>, t: seq<Todo>, id: int)
    requires |s| == |t|
    requires forall j :: 0 <= j < |s| ==> s[j].id == t[j].id
    ensures FirstTodo(s, id) == FirstTodo(t, id)
  {
    if HasTodo(s, id) {
      var k :| 0 <= k < |s| && s[k].id == id;
      assert t[k].id == id;
      var a, b := FirstTodo(s, id).value, FirstTodo(t, id).value;
      assert s[b].id == id;
      assert t[a].id == id;
    } else {
      forall k | 0 <= k < |t| ensures t[k].id != id {
        assert s[k].id == t[k].id;
      }
    }
  }

  /** completeTodo is an involution: a second call on the same id restores the document. */
  lemma CompleteTodoTwiceRestores(d: Document, id: int)
    ensures var once := CompleteTodo(d, id);
            var twice := CompleteTodo(once.doc, id);
            twice.doc == d &&
            twice.result.Ok? == once.result.Ok? &&
            (once.result.Ok? ==> twice.result.value == once.result.value.(completed := !once.result.value.completed))
  {
    var once := CompleteTodo(d, id);
    // The toggle leaves every id in place, so the second call finds the same index.
    FirstTodoSameIds(d.todos, once.doc.todos, id);
  }

  /** updateTodoTask overwrites: a second update on the same id wins, so repeating one is idempotent. */
  lemma UpdateTodoTaskOverwrites(d: Document, id: int, first: string, second: string)
    ensures UpdateTodoTask(UpdateTodoTask(d, id, first).doc, id, second) == UpdateTodoTask(d, id, second)
  {
    var once := UpdateTodoTask(d, id, first);
    // The update leaves every id in place, so the second call finds the same index.
    FirstTodoSameIds(d.todos, once.doc.todos, id);
  }

  /** With unique ids, a deleted id is gone: every later lookup of it fails with "Todo not found". */
  lemma DeleteThenNotFound(d: Document, id: int)
    requires UniqueTodoIds(d.todos)
    ensures var after := DeleteTodo(d, id).doc;
            !HasTodo(after.todos, id) &&
            DeleteTodo(after, id).result == Err(TodoNotFound) &&
            CompleteTodo(after, id).result == Err(TodoNotFound)
  {
    var o := DeleteTodo(d, id);
    if o.result.Ok? {
      var k := FirstTodo(d.todos, id).value;
      var after := o.doc.todos;
      forall j | 0 <= j < |after| ensures after[j].id != id {
        if j < k {
          assert after[j] == d.todos[j];
        } else {
          assert after[j] == d.todos[j + 1];
        }
      }
    }
  }

  /** signup then login with the same fields succeeds; it answers the new user unless an earlier one matched. */
  lemma SignupThenLogin(d: Document, username: string, email: string)
    ensures var s := Signup(d, username, email);
            var r := Login(s.doc, username, email);
            r.Ok? && Matches(r.value, username, email) &&
            (!HasUser(d.users, username, email) ==> r == s.result)
  {
    var s := Signup(d, username, email);
    var n := |d.users|;
    assert Matches(s.doc.users[n], username, email);
    if !HasUser(d.users, username, email) {
      forall j | 0 <= j < n ensures !Matches(s.doc.users[j], username, email) {
        assert s.doc.users[j] == s.doc.users[..n][j];
      }
      assert IsFirstUser(s.doc.users, username, email, n);
    }
  }

  /** User ids stay 1, 2, ..., n under signup (users are never removed), hence unique. */
  lemma SignupKeepsUserIdsDense(d: Document, username: string, email: string)
    requires DenseUserIds(d.users)
    ensures DenseUserIds(Signup(d, username, email).doc.users)
    ensures UniqueUserIds(Signup(d, username, email).doc.users)
  {
    var after := Signup(d, username, email).doc.users;
    forall i | 0 <= i < |after| ensures after[i].id == i + 1 {
      if i < |d.users| {
        assert after[i] == after[..|d.users|][i];
      }
    }
  }

  /** One addTodo call's arguments. */
  datatype AddRequest = AddRequest(userId: string, task: string)

  /** The final document and the todos returned, in call order. */
  datatype Batch = Batch(doc: Document, added: seq<Todo>)

  /** addTodo called once per request, in order. */
  function AddTodos(d: Document, requests: seq<AddRequest>): (b: Batch)
    decreases |requests|
  {
    if requests == [] then Batch(d, [])
    else
      var o := AddTodo(d, requests[0].userId, requests[0].task);
      var rest := AddTodos(o.doc, requests[1..]);
      Batch(rest.doc, [o.result.value] + rest.added)
  }

  /** Each request appends exactly the todo it returns, and users are untouched. */
  lemma {:induction false} AddTodosAppend(d: Document, requests: seq<AddRequest>)
    ensures |AddTodos(d, requests).added| == |requests|
    ensures AddTodos(d, requests).doc.todos == d.todos + AddTodos(d, requests).added
    ensures AddTodos(d, requests).doc.users == d.users
    decreases |requests|
  {
    if requests != [] {
      var o := AddTodo(d, requests[0].userId, requests[0].task);
      AddTodosAppend(o.doc, requests[1..]);
      var rest := AddTodos(o.doc, requests[1..]);
      assert o.doc.todos == d.todos + [o.result.value];
      assert rest.doc.todos == d.todos + ([o.result.value] + rest.added);
    }
  }

  /** Without deletions, the k-th addTodo returns id |todos| + k + 1 with its own userId and task. */
  lemma {:induction false} AddTodosSequentialIds(d: Document, requests: seq<AddRequest>)
    ensures |AddTodos(d, requests).added| == |requests|
    ensures forall k :: 0 <= k < |requests| ==>
              AddTodos(d, requests).added[k] ==
              Todo(|d.todos| + k + 1, requests[k].userId, requests[k].task, false)
    decreases |requests|
  {
    AddTodosAppend(d, requests);
    if requests != [] {
      var o := AddTodo(d, requests[0].userId, requests[0].task);
      var tail := requests[1..];
      AddTodosSequentialIds(o.doc, tail);
      var added := AddTodos(d, requests).added;
      var rest := AddTodos(o.doc, tail).added;
      assert added == [o.result.value] + rest;
      forall k | 1 <= k < |requests|
        ensures added[k] == Todo(|d.todos| + k + 1, requests[k].userId, requests[k].task, false)
      {
        assert added[k] == rest[k - 1];
        assert tail[k - 1] == requests[k];
      }
    }
  }

  /** From the default empty document, successive addTodo calls return ids 1, 2, ..., n. */
  lemma AddTodosFromEmpty(requests: seq<AddRequest>)
    ensures var b := AddTodos(EmptyDocument, requests);
            |b.added| == |requests| &&
            (forall k :: 0 <= k < |b.added| ==> b.added[k].id == k + 1) &&
            b.doc.todos == b.added && DenseTodoIds(b.doc.todos)
  {
    AddTodosAppend(EmptyDocument, requests);
    AddTodosSequentialIds(EmptyDocument, requests);
  }

  /** addTodo keeps todo ids unique exactly when no todo already holds the id it allocates. */
  lemma AddTodoKeepsUniqueIds(d: Document, userId: string, task: string)
    requires UniqueTodoIds(d.todos)
    ensures UniqueTodoIds(AddTodo(d, userId, task).doc.todos) <==> !HasTodo(d.todos, |d.todos| + 1)
  {
    var after := AddTodo(d, userId, task).doc.todos;
    var n := |d.todos|;
    assert forall i :: 0 <= i < n ==> after[i] == d.todos[i];
    if HasTodo(d.todos, n + 1) {
      var i :| 0 <= i < n && d.todos[i].id == n + 1;
      assert after[i].id == after[n].id;
    }
  }

  /**
   * The length-based allocator reuses a live id: delete any todo but the last
   * from a densely numbered collection, and the next addTodo allocates the id
   * still held by the last survivor.
   */
  lemma IdReuseAfterNonTailDelete(d: Document, id: int, userId: string, task: string)
    requires DenseTodoIds(d.todos)
    requires 1 <= id < |d.todos|
    ensures UniqueTodoIds(d.todos)
    ensures var removed := DeleteTodo(d, id);
            removed.result.Ok? &&
            var added := AddTodo(removed.doc, userId, task);
            added.result.value.id == |d.todos| &&
            added.doc.todos[|d.todos| - 2].id == |d.todos| &&
            !UniqueTodoIds(added.doc.todos)
  {
    var n := |d.todos|;
    assert d.todos[id - 1].id == id;
    var removed := DeleteTodo(d, id);
    var k := FirstTodo(d.todos, id).value;
    assert k == id - 1;
    assert removed.doc.todos[n - 2] == d.todos[n - 1];
    var added := AddTodo(removed.doc, userId, task);
    assert added.doc.todos[n - 2] == removed.doc.todos[n - 2];
    assert added.doc.todos[n - 2].id == added.doc.todos[n - 1].id;
  }
}
