# Todo-list GraphQL resolvers, modelled in Dafny

The backend of this todo-list service is one set of GraphQL resolvers over a
lowdb document `db.data`, which holds two ordered collections, `users` and
`todos`. There is one query, `todos`. There are six mutations: `signup`,
`login`, `addTodo`, `deleteTodo`, `completeTodo` and `updateTodoTask`. Every
successful mutation except `login` ends with `db.write()`, which replaces the
database file with the whole document. Each request begins with `db.read()`,
which loads the file back.

The model has these layers:

- `Records` (records.dfy): the `User`, `Todo` and `Document` records, the
  `NotFound` error with its two messages, and `Result`, the value a resolver
  returns or the error it throws.
- `Lookup` (lookup.dfy): the searches the resolvers run. `findIndex`/`find`
  by todo id and `find` by username and email are each given twice: as a
  recursive specification (`FirstTodo`, `FirstUser`) and as the loop the
  JavaScript array method performs (`FindTodoIndex`, `FindUserIndex`).
- `Resolvers` (resolvers.dfy): each resolver as a function from the document
  before the call to the document after it plus the answer (`Reply`). The
  contracts say what is appended, which record is removed, which single field
  changes, that nothing else changes, and when the call fails with
  "Todo not found" or "User not found".
- `Properties` (properties.dfy): lemmas relating several calls. Calling
  `completeTodo` twice restores the document. A second `updateTodoTask` wins
  over the first. A deleted id cannot be found again, provided ids were
  unique. `signup` followed by `login` with the same fields succeeds. Repeated
  `addTodo` calls from the empty document return ids 1, 2, ..., n. Length-based
  allocation reuses a live id after a delete that is not at the tail.
- `Store` (store.dfy): the class `Db`. It holds `users` and `todos` as
  sequence fields, plus `persisted`, the content of the database file
  (`None` while no file exists). Each resolver is a method that searches with
  the loops from `Lookup` and then pushes, splices or assigns in place. Each
  method is proved to produce exactly the document and answer of its
  `Resolvers` function. Each one also states the file image afterwards: the
  in-memory document after a successful mutation, and unchanged after a
  failure. `login` and `todos` have no `modifies` clause, so they change
  nothing. `Walkthrough` is a client that replays the add / complete /
  complete / delete sequence and a login with the wrong email, reloading
  before each request.

Ids are `int`. The `id` argument of `deleteTodo`, `completeTodo` and
`updateTodoTask` is taken as already converted by `Number(id)`. The `userId`
argument of `addTodo` is the GraphQL `ID` string, stored without validation.

Three behaviours of the code and of lowdb are worth stating:

- Todo ids are not unique: the allocator is `todos.length + 1`, and deletes
  remove records anywhere in the sequence. `IdReuseAfterNonTailDelete` proves
  that collisions happen. `AddTodoKeepsUniqueIds` states exactly when they do.
- Opening the database does not write the default document to a file. The
  file stays absent (`persisted == None`) until the first successful mutation.
- `Reload` assumes lowdb's `read()` semantics: when a file exists, its
  content replaces `db.data`; when not, `db.data` is kept. lowdb itself is not
  part of this model.

## Model

| member | source | states |
|---|---|---|
| `Lookup.FirstTodo` | backend/index.js:74 | None exactly when no todo has the id; otherwise the position of the first todo with that id |
| `Lookup.FindTodoIndex` | backend/index.js:74 | the `findIndex` loop answers -1 exactly when no todo has the id, else the first matching position, agreeing with `FirstTodo` |
| `Lookup.FirstUser` | backend/index.js:55-57 | None exactly when no user matches both username and email; otherwise the first such position |
| `Lookup.FindUserIndex` | backend/index.js:55-57 | the `find` loop answers -1 exactly when no user matches both fields, else the first match, agreeing with `FirstUser` |
| `Resolvers.NextId` | backend/index.js:63 | the allocator used by addTodo here and by signup at line 46: the new id is one more than the collection's current length, hence positive, and depends on the length alone, not on the ids present |
| `Resolvers.Signup` | backend/index.js:44-52 | always succeeds; exactly one user is appended with id old length + 1 and the given username and email; earlier users and all todos are unchanged; the new user is returned |
| `Resolvers.Login` | backend/index.js:54-59 | succeeds exactly when some user matches both fields, returning the first such user; otherwise fails with "User not found" |
| `Resolvers.AddTodo` | backend/index.js:61-70 | always succeeds; exactly one todo `{id: old length + 1, userId, task, completed: false}` is appended; earlier todos and all users are unchanged |
| `Resolvers.Spliced` | backend/index.js:76 | `splice(k, 1)`: length drops by one, elements before k stay, later ones shift down by one, and the multiset loses exactly the element at k |
| `Resolvers.DeleteTodo` | backend/index.js:72-78 | on a present id, returns the first todo with it and leaves the others in order without it (length minus one, multiset minus that record); on an absent id, fails with "Todo not found" and changes nothing |
| `Resolvers.CompleteTodo` | backend/index.js:80-86 | on a present id, flips `completed` of the first todo with that id, keeps its other fields and every other todo, and returns the updated record; on an absent id, fails with "Todo not found" and changes nothing |
| `Resolvers.UpdateTodoTask` | backend/index.js:88-95 | on a present id, sets `task` of the first todo with that id, keeps its id, userId and completed and every other todo, and returns the updated record; on an absent id, fails with "Todo not found" and changes nothing |
| `Properties.FirstTodoSameIds` | backend/index.js:82 | the todo lookup depends only on the ids, so changing other fields does not change which todo a later lookup finds |
| `Properties.CompleteTodoTwiceRestores` | backend/index.js:80-86 | completeTodo is an involution: a second call restores the document, succeeds exactly when the first did, and returns the record toggled back |
| `Properties.UpdateTodoTaskOverwrites` | backend/index.js:88-95 | updating the task twice equals updating it once with the second task, which also makes a repeated update idempotent |
| `Properties.DeleteThenNotFound` | backend/index.js:72-86 | when todo ids are unique, after deleteTodo the id is absent, so a second deleteTodo or a completeTodo on it fails with "Todo not found" |
| `Properties.SignupThenLogin` | backend/index.js:44-59 | after signup, login with the same username and email succeeds with a matching user, and returns the new user when no earlier user matched |
| `Properties.SignupKeepsUserIdsDense` | backend/index.js:46-50 | users are never removed, so signup keeps user ids 1..n in order, which makes them unique |
| `Properties.AddTodosAppend` | backend/index.js:68 | successive addTodo calls append exactly the todos they return, in call order, and leave users unchanged |
| `Properties.AddTodosSequentialIds` | backend/index.js:61-70 | with no deletions in between, the k-th of successive addTodo calls returns id length + k + 1 with its own userId and task |
| `Properties.AddTodosFromEmpty` | backend/index.js:63-68 | starting from the empty default document, successive addTodo calls return ids 1, 2, ..., n in call order |
| `Properties.AddTodoKeepsUniqueIds` | backend/index.js:63 | from unique ids, addTodo keeps them unique if and only if no todo already holds id length + 1 |
| `Properties.IdReuseAfterNonTailDelete` | backend/index.js:63-76 | deleting any todo but the last from ids 1..n, then adding one, allocates id n, which the last survivor still holds, so uniqueness is lost |
| `Store.Db.Open` | backend/index.js:6-9 | the document is the file's content if a file exists, else the empty default; the file is not written |
| `Store.Db.Reload` | backend/index.js:113 | the document becomes the file's content when a file exists, is kept otherwise, and the file is unchanged |
| `Store.Db.Write` | backend/index.js:51 | the file image becomes the current in-memory document |
| `Store.Db.ListTodos` | backend/index.js:41 | returns the todos collection unchanged and changes no state |
| `Store.Db.Signup` | backend/index.js:44-52 | pushes the new user exactly as `Resolvers.Signup` says, returns it, and leaves the file equal to the document |
| `Store.Db.Login` | backend/index.js:54-59 | answers exactly `Resolvers.Login` and, having no modifies clause, changes neither the document nor the file |
| `Store.Db.AddTodo` | backend/index.js:61-70 | pushes the new todo exactly as `Resolvers.AddTodo` says, returns it, and leaves the file equal to the document |
| `Store.Db.DeleteTodo` | backend/index.js:72-78 | splices and answers exactly as `Resolvers.DeleteTodo` says; the file equals the document on success and is untouched on failure |
| `Store.Db.CompleteTodo` | backend/index.js:80-86 | toggles in place and answers exactly as `Resolvers.CompleteTodo` says; the file equals the document on success and is untouched on failure |
| `Store.Db.UpdateTodoTask` | backend/index.js:88-95 | assigns the task in place and answers exactly as `Resolvers.UpdateTodoTask` says; the file equals the document on success and is untouched on failure |

## Left out

- Apollo Server, the Lambda handler and request routing (backend/index.js:1-3, 99-121): framework wiring. Only the `db.read()` inside the per-request context (line 113) is modelled, as `Reload`.
- The GraphQL schema string (lines 11-37): schema text, not logic.
- lowdb itself and JSON serialisation: a write copies the document into `persisted` and a read copies it back. I/O failures (`StorageUnavailable`) are not modelled, and neither is the in-memory change that survives a failed write.
- `Number(id)` on arbitrary GraphQL ID strings (lines 73, 81, 89), including `NaN`: JavaScript number parsing is not modelled; the id arrives as an `int`.
- The `posts` collection of the default document (line 6): nothing reads or writes it.
- Asynchrony and concurrent requests: there is no locking, and the lost-update and duplicate-id races between concurrent instances are not sequential behaviour.
- Aliasing: `Query.todos` returns the live array, and `completeTodo`/`updateTodoTask` return the stored object itself. In the model, records are values, so a returned record does not track later mutations.
