/** The records the resolvers of backend/index.js keep in the document `db.data`. */
module Records {

  datatype Option<T> = None | Some(value: T)

  /** A user; its id is allocated by signup, the other two fields are taken as given. */
  datatype User = User(id: int, username: string, email: string)

  /** A todo item. `userId` is the GraphQL ID it was created with, stored without validation. */
  datatype Todo = Todo(id: int, userId: string, task: string, completed: bool)

  /** The whole document: the two ordered collections the resolvers read and write. */
  datatype Document = Document(users: seq<User>, todos: seq<Todo>)

  /** The default document used when no file exists yet. */
  const EmptyDocument := Document([], [])

  /** The errors a resolver throws; each carries the message the client sees. */
  datatype Error = NotFound(message: string)

  const UserNotFound := NotFound("User not found")
  const TodoNotFound := NotFound("Todo not found")

  /** What a resolver answers: the record it returns, or the error it throws. */
  datatype Result<T> = Ok(value: T) | Err(error: Error)
}
