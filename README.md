# Todo service core in Dafny

This project models the business core of a small Go todo service. The service has three layers:

- The **entity** `Todo`: its title rule (`Validate`) and its completion toggle (`Toggle`).
- The **use case** `TodoUseCase`: it creates, lists, reads, updates, toggles and deletes todos.
- The **repository** contract: five operations, used by the use case as its only way to reach storage.

The SQL repository is replaced by an in-memory table. This table keeps the row behaviour of the SQL implementation, apart from the data-dependent errors and the timestamp storage listed under "## Left out":

- ids come from a `SERIAL` sequence and are never reused;
- the repository stamps the timestamps;
- a lookup with no row answers "absent", which is not an error;
- update of a missing id and delete of a missing id change nothing and report no error;
- listing returns rows newest first.

Files:

- `wrappers.dfy` (module `Wrappers`): `Option` and `Result`, for Go's `(value, error)` returns.
- `domain.dfy` (module `Domain`): the clock, the row value `TodoRow`, and the entity class `Todo`.
  - `Todo` is a class because Go's pointer receivers and the repository update it in place.
  - `Title` and `Description` are byte sequences (`seq<bv8>`), because Go's `len` counts UTF-8 bytes.
- `repository.dfy` (module `Repository`):
  - the table as a value `Store` (rows by id, plus the sequence's next value);
  - the three writes as `Write` and their effect `Apply`, with `Run` for a series of writes;
  - the newest-first listing `IsListing`;
  - the class `TodoRepository`, whose methods are proved against `Apply` and `IsListing`.
- `usecase.dfy` (module `UseCase`): the class `TodoUseCase` over a `TodoRepository`.
  - Its invariant `Valid` adds the entity rule to the repository's invariant: every stored title is valid.

Time: every `time.Now()` becomes a read of a `Clock` object. Each read returns a later value than the one before. The repository holds the clock (`TodoRepository.clock`), and the use case passes the same clock to `Todo.Toggle`.

Storage errors: the field `TodoRepository.fault` stands for the state of the database connection. While it holds an error, every repository operation fails with that error and writes nothing. The use case passes the error on unchanged.

Titles are measured in bytes. The error message at internal/domain/todo.go:24 says "within 100 characters" (100文字以内). The `VARCHAR(100)` column at internal/infrastructure/database/postgres.go:40 also counts characters. But the check `len(t.Title) > 100` at internal/domain/todo.go:23 counts UTF-8 bytes, and the model follows that check. So a title of 34 three-byte characters (102 bytes) is rejected, although it fits both the message and the column.

## Model

| member | source | states |
|---|---|---|
| `Domain.TitleCheck` | internal/domain/todo.go:20-26 | no error exactly when the title has 1 to 100 bytes; an empty title always gives the "required" error, never the length error; the "too long" error exactly when the title is over 100 bytes |
| `Domain.Todo.Validate` | internal/domain/todo.go:19-27 | the entity's answer is the title check of its title, so no other field is looked at and no field changes |
| `Domain.ValidateReadsOnlyTitle` | internal/domain/todo.go:19-27 | two entities with the same title get the same answer: description, completed, id and timestamps are never looked at |
| `Domain.Todo.Toggle` | internal/domain/todo.go:30-33 | completed becomes its negation; updated-at becomes a new, later clock reading; id, title, description and created-at are unchanged |
| `Domain.ToggleTwiceRestores` | internal/domain/todo.go:31 | toggling twice gives back the original completed value and every field except the update time |
| `Domain.Todo.constructor` | internal/usecase/todo_usecase.go:19-23 | a new entity has the given title, description and completed flag; id and timestamps are Go's zero values |
| `Domain.Todo.FromRow` | internal/adapter/repository/todo_repository_impl.go:40-44 | an entity scanned from a row has exactly the row's six columns |
| `Domain.Clock.Now` | internal/domain/todo.go:32 | each reading is later than the previous one |
| `Repository.ApplyKeepsConsistent` | internal/infrastructure/database/postgres.go:38-45 | a write stamped no earlier than the rows' last writes keeps each row under its own id, below the sequence's next value, with created-at no later than updated-at; the sequence never goes back |
| `Repository.RunNeverReusesIds` | internal/infrastructure/database/postgres.go:39 | an id below the sequence's next value that has no row never gets one again, whatever writes follow |
| `Repository.DeletedIdStaysDeleted` | internal/adapter/repository/todo_repository_impl.go:93-97 | once a row is deleted, no later series of inserts, updates and deletes brings its id back |
| `Repository.InsertionPoint` | internal/adapter/repository/todo_repository_impl.go:57 | the place of a row in a newest-first listing: rows before it were created no earlier, rows after it strictly earlier |
| `Repository.SpliceLists` | internal/adapter/repository/todo_repository_impl.go:57 | putting a row at its insertion point keeps the listing complete for the ids so far, each once, newest first |
| `Repository.ListingLength` | internal/adapter/repository/todo_repository_impl.go:65-76 | a listing has exactly as many rows as the table; an empty table gives an empty sequence |
| `Repository.TodoRepository.constructor` | internal/infrastructure/database/postgres.go:38-45 | an empty table, a healthy connection, and a sequence whose first value is 1 |
| `Repository.TodoRepository.Create` | internal/adapter/repository/todo_repository_impl.go:19-33 | stamps created-at and updated-at of the caller's entity with one clock reading, also when the insert fails; on success inserts the row under the sequence's next value, which no row had, and writes that id back into the entity; on failure the table and the entity's id are unchanged |
| `Repository.TodoRepository.FindByID` | internal/adapter/repository/todo_repository_impl.go:35-52 | three outcomes: a new entity equal to the row, Absent when no row has the id, or the connection's error |
| `Repository.TodoRepository.ListRows` | internal/adapter/repository/todo_repository_impl.go:54-58 | the query's result: every row of the table once, each equal to its stored row, ordered by created-at descending |
| `Repository.TodoRepository.FindAll` | internal/adapter/repository/todo_repository_impl.go:54-77 | the connection's error, or one new entity per row of the listing, as many as the table has rows |
| `Repository.TodoRepository.Update` | internal/adapter/repository/todo_repository_impl.go:79-91 | stamps the entity's updated-at with a new clock reading, also when the statement fails; overwrites title, description, completed and updated-at of the row with the entity's id; id and created-at stay; a missing id changes nothing and is not an error |
| `Repository.TodoRepository.Delete` | internal/adapter/repository/todo_repository_impl.go:93-97 | removes the row with that id; a missing id changes nothing and is not an error |
| `UseCase.ApplyKeepsTitlesValid` | internal/usecase/todo_usecase.go:26-28 | writes that carry a valid title keep every stored title valid |
| `UseCase.TodoUseCase.constructor` | internal/usecase/todo_usecase.go:13-15 | the use case works over the repository it is given |
| `UseCase.TodoUseCase.CreateTodo` | internal/usecase/todo_usecase.go:18-35 | an invalid title returns its validation error with no write and no clock read; a storage error is passed on with no write; otherwise the table gains the row (given title and description, not completed, new id, equal timestamps), and in the model the returned entity equals the stored row (in the program the stored timestamps are rounded; see "## Left out") |
| `UseCase.TodoUseCase.GetAllTodos` | internal/usecase/todo_usecase.go:38-40 | the repository's listing or error, unchanged |
| `UseCase.TodoUseCase.GetTodoByID` | internal/usecase/todo_usecase.go:43-45 | the repository's answer, Absent included, unchanged |
| `UseCase.TodoUseCase.UpdateTodo` | internal/usecase/todo_usecase.go:48-66 | a lookup error is returned unchanged, then a missing id gives NotFound, then an invalid title gives its validation error, each with no write; otherwise title, description and completed are replaced by the arguments, and id and created-at stay |
| `UseCase.TodoUseCase.ToggleTodo` | internal/usecase/todo_usecase.go:69-80 | a lookup error is returned unchanged, and a missing id gives NotFound, each with no write; otherwise the row's completed flag is negated, its title and description are kept without validating again, and its updated-at moves forward |
| `UseCase.TodoUseCase.DeleteTodo` | internal/usecase/todo_usecase.go:83-85 | no existence check: deleting a missing id succeeds and changes nothing, unlike update and toggle; a storage error is passed on |

## Left out

- SQL text, the `database/sql` driver and Postgres itself: only the observable row behaviour of the statements is modelled.
- The `VARCHAR(100)` and `NOT NULL` column constraints are not modelled. Validation limits titles to 100 bytes, and 100 bytes are never more than 100 characters, so through the use case they never fire.
- The sequence is modelled with unbounded integers. The 32-bit limit of `SERIAL`, and Go's `int64` ids, are not modelled.
- Storage errors come only from the `fault` field, which stays fixed during a call. A connection that fails partway through a call is not modelled.
- `Repository.TodoRepository.Create`, `Repository.TodoRepository.Update`: Postgres text cannot hold a 0x00 byte. In the program, a title or description containing one makes the insert or update fail with a storage error. Such a title can pass validation, for example the one-byte title 0x00. In the model, with no `fault`, the write succeeds. `UseCase.TodoUseCase.CreateTodo` and `UseCase.TodoUseCase.UpdateTodo` inherit this gap.
- `Repository.TodoRepository.FindAll`: the program never checks `rows.Err()` after its loop (internal/adapter/repository/todo_repository_impl.go:66-76). If the connection drops partway through a listing, the program returns the rows read so far with no error. The model returns either the whole listing or the error.
- `Domain.Clock.Now`: a real wall clock can return the same reading twice. It can also step back, for example after an NTP correction. The zone-less local times stored in the `TIMESTAMP` columns also go back an hour at a daylight-saving change. The model's clock always moves forward. In the program, a stored updated-at earlier than created-at is therefore possible, and so is a newer row listed after an older one. `Repository.Consistent` (created-at no later than updated-at), `Repository.ApplyKeepsConsistent` and the strictly later updated-at in `UseCase.TodoUseCase.ToggleTodo` hold only because the model's clock always moves forward.
- `UseCase.TodoUseCase.CreateTodo`: in the program, `Create` stamps the entity with `time.Now()`, which has nanosecond resolution, a time zone and a monotonic reading. The `TIMESTAMP` columns keep microseconds and no zone. So a lookup right after a create returns created-at and updated-at values that differ from the entity `CreateTodo` returned. The model stores the stamped values exactly, so the returned entity equals the stored row.
- Ties in `ORDER BY created_at DESC` have no defined order in SQL. The model places a row after the rows with the same creation time that were listed before it. `IsListing` allows any order among ties.
- `context.Context` cancellation is not modelled. Neither is concurrency between requests, where the last write wins.
- The HTTP handler (JSON, path parameters, status codes), the process wiring in `cmd/api/main.go` and the database connection setup are not part of this model.
