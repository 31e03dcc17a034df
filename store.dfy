/**
 * The resolver object of backend/index.js over the lowdb handle `db`: the
 * in-memory document `db.data` as two sequence fields, and the file image
 * that `db.write()` replaces and the per-request `db.read()` reloads.
 */
module Store {
  import opened Records
  import opened Lookup
  import Resolvers

  class Db {
    var users: seq<User>
    var todos: seq<Todo>
    /** The content of the database file; None while no file has been written. */
    var persisted: Option<Document>

    /** `db.data`, as one value. */
    function Doc(): (d: Document)
      reads this
    {
      Document(users, todos)
    }

    /** `JSONFilePreset(path, defaultData)` followed by `db.read()`: the file's content, else the empty default. */
    constructor Open(file: Option<Document>)
      ensures persisted == file
      ensures Doc() == if file.Some? then file.value else EmptyDocument
    {
      persisted := file;
      if file.Some? {
        users, todos := file.value.users, file.value.todos;
      } else {
        users, todos := EmptyDocument.users, EmptyDocument.todos;
      }
    }

    /** The per-request `db.read()`: the file's content replaces `db.data`; with no file, `db.data` stays. */
    method Reload()
      modifies this
      ensures persisted == old(persisted)
      ensures Doc() == if persisted.Some? then persisted.value else old(Doc())
    {
      if persisted.Some? {
        users, todos := persisted.value.users, persisted.value.todos;
      }
    }

    /** `db.write()`: the whole document replaces the file's content. */
    method Write()
      modifies this`persisted
      ensures persisted == Some(Doc())
    {
      persisted := Some(Doc());
    }

    /** Query.todos: the whole collection, unfiltered. */
    method ListTodos() returns (r: seq<Todo>)
      ensures r == todos
    {
      r := todos;
    }

    /** Mutation.signup: push a user with id `users.length + 1`, write, answer it. */
    method Signup(username: string, email: string) returns (user: User)
      modifies this
      ensures Resolvers.Reply(Doc(), Ok(user)) == Resolvers.Signup(old(Doc()), username, email)
      ensures persisted == Some(Doc())
    {
      user := User(Resolvers.NextId(users), username, email);
      users := users + [user];
      Write();
    }

    /** Mutation.login: `find` the first user with both fields equal; nothing is written. */
    method Login(username: string, email: string) returns (r: Result<User>)
      ensures r == Resolvers.Login(Doc(), username, email)
    {
      var index := FindUserIndex(users, username, email);
      if index == -1 {
        return Err(UserNotFound);
      }
      r := Ok(users[index]);
    }

    /** Mutation.addTodo: push an uncompleted todo with id `todos.length + 1`, write, answer it. */
    method AddTodo(userId: string, task: string) returns (todo: Todo)
      modifies this
      ensures Resolvers.Reply(Doc(), Ok(todo)) == Resolvers.AddTodo(old(Doc()), userId, task)
      ensures persisted == Some(Doc())
    {
      todo := Todo(Resolvers.NextId(todos), userId, task, false);
      todos := todos + [todo];
      Write();
    }

    /** Mutation.deleteTodo: `findIndex`, then `splice(index, 1)` and write; "Todo not found" writes nothing. */
    method DeleteTodo(id: int) returns (r: Result<Todo>)
      modifies this
      ensures Resolvers.Reply(Doc(), r) == Resolvers.DeleteTodo(old(Doc()), id)
      ensures persisted == if r.Ok? then Some(Doc()) else old(persisted)
    {
      var index := FindTodoIndex(todos, id);
      if index == -1 {
        return Err(TodoNotFound);
      }
      var deleted := todos[index];
      todos := Resolvers.Spliced(todos, index);
      Write();
      r := Ok(deleted);
    }

    /** Mutation.completeTodo: `find`, flip `completed` in place and write; "Todo not found" writes nothing. */
    method CompleteTodo(id: int) returns (r: Result<Todo>)
      modifies this
      ensures Resolvers.Reply(Doc(), r) == Resolvers.CompleteTodo(old(Doc()), id)
      ensures persisted == if r.Ok? then Some(Doc()) else old(persisted)
    {
      var index := FindTodoIndex(todos, id);
      if index == -1 {
        return Err(TodoNotFound);
      }
      todos := todos[index := todos[index].(completed := !todos[index].completed)];
      Write();
      r := Ok(todos[index]);
    }

    /** Mutation.updateTodoTask: `find`, assign `task` in place and write; "Todo not found" writes nothing. */
    method UpdateTodoTask(id: int, task: string) returns (r: Result<Todo>)
      modifies this
      ensures Resolvers.Reply(Doc(), r) == Resolvers.UpdateTodoTask(old(Doc()), id, task)
      ensures persisted == if r.Ok? then Some(Doc()) else old(persisted)
    {
      var index := FindTodoIndex(todos, id);
      if index == -1 {
        return Err(TodoNotFound);
      }
      todos := todos[index := todos[index].(task := task)];
      Write();
      r := Ok(todos[index]);
    }
  }

  /**
   * A client of the resolvers, one request after another with the reload
   * each request begins with: the walkthrough of adding, completing twice
   * and deleting a todo, and a login with the wrong email.
   */
  method Walkthrough() {
    var db := new Db.Open(None);
    db.Reload();
    var added := db.AddTodo("1", "buy milk");
    assert added == Todo(1, "1", "buy milk", false);

    db.Reload();
    var done := db.CompleteTodo(1);
    assert done == Ok(Todo(1, "1", "buy milk", true));
    db.Reload();
    var undone := db.CompleteTodo(1);
    assert undone == Ok(Todo(1, "1", "buy milk", false));

    db.Reload();
    var deleted := db.DeleteTodo(1);
    assert deleted == Ok(Todo(1, "1", "buy milk", false));
    db.Reload();
    var left := db.ListTodos();
    assert left == [];

    db.Reload();
    var user := db.Signup("a", "a@x.com");
    assert user == User(1, "a", "a@x.com");
    db.Reload();
    var wrong := db.Login("a", "wrong@x.com");
    assert !Matches(db.users[0], "a", "wrong@x.com");
    assert wrong == Err(UserNotFound);
  }
}
