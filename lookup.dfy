/**
 * The two searches the resolvers perform: `find`/`findIndex` over `todos`
 * by id, and `find` over `users` by username and email. Each is given as a
 * recursive specification and as the loop the JavaScript array method runs.
 */
module Lookup {
  import opened Records

  ghost predicate HasTodo(todos: seq<Todo>, id: int) {
    exists j :: 0 <= j < |todos| && todos[j].id == id
  }

  /** `k` is the position of the first todo whose id is `id`. */
  ghost predicate IsFirstTodo(todos: seq<Todo>, id: int, k: int) {
    0 <= k < |todos| && todos[k].id == id &&
    forall j :: 0 <= j < k ==> todos[j].id != id
  }

  /** The index of the first todo with id `id`, if any. */
  function FirstTodo(todos: seq<Todo>, id: int): (r: Option<nat>)
    ensures r.None? <==> !HasTodo(todos, id)
    ensures r.Some? ==> IsFirstTodo(todos, id, r.value)
  {
    if |todos| == 0 then None
    else if todos[0].id == id then Some(0)
    else
      match FirstTodo(todos[1..], id)
      case None =>
        assert forall j :: 1 <= j < |todos| ==> todos[j] == todos[1..][j - 1];
        None
      case Some(k) =>
        assert forall j :: 1 <= j <= k ==> todos[j] == todos[1..][j - 1];
        Some(k + 1)
  }

  /** `Array.prototype.findIndex` with `todo.id === id`: -1 when nothing matches. */
  method FindTodoIndex(todos: seq<Todo>, id: int) returns (index: int)
    ensures index == -1 <==> !HasTodo(todos, id)
    ensures index != -1 ==> IsFirstTodo(todos, id, index)
    ensures FirstTodo(todos, id) == if index == -1 then None else Some(index)
  {
    index := 0;
    while index < |todos|
      invariant 0 <= index <= |todos|
      invariant forall j :: 0 <= j < index ==> todos[j].id != id
    {
      if todos[index].id == id {
        return;
      }
      index := index + 1;
    }
    index := -1;
  }

  /** The login predicate: both fields compare equal. */
  predicate Matches(u: User, username: string, email: string) {
    u.username == username && u.email == email
  }

  ghost predicate HasUser(users: seq<User>, username: string, email: string) {
    exists j :: 0 <= j < |users| && Matches(users[j], username, email)
  }

  ghost predicate IsFirstUser(users: seq<User>, username: string, email: string, k: int) {
    0 <= k < |users| && Matches(users[k], username, email) &&
    forall j :: 0 <= j < k ==> !Matches(users[j], username, email)
  }

  /** The index of the first user with this username and email, if any. */
  function FirstUser(users: seq<User>, username: string, email: string): (r: Option<nat>)
    ensures r.None? <==> !HasUser(users, username, email)
    ensures r.Some? ==> IsFirstUser(users, username, email, r.value)
  {
    if |users| == 0 then None
    else if Matches(users[0], username, email) then Some(0)
    else
      match FirstUser(users[1..], username, email)
      case None =>
        assert forall j :: 1 <= j < |users| ==> users[j] == users[1..][j - 1];
        None
      case Some(k) =>
        assert forall j :: 1 <= j <= k ==> users[j] == users[1..][j - 1];
        Some(k + 1)
  }

  /** `Array.prototype.find` over users, answering the position of the match or -1. */
  method FindUserIndex(users: seq<User>, username: string, email: string) returns (index: int)
    ensures index == -1 <==> !HasUser(users, username, email)
    ensures index != -1 ==> IsFirstUser(users, username, email, index)
    ensures FirstUser(users, username, email) == if index == -1 then None else Some(index)
  {
    index := 0;
    while index < |users|
      invariant 0 <= index <= |users|
      invariant forall j :: 0 <= j < index ==> !Matches(users[j], username, email)
    {
      if Matches(users[index], username, email) {
        return;
      }
      index := index + 1;
    }
    index := -1;
  }
}
