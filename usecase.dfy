/**
 * The use-case layer (internal/usecase/todo_usecase.go): it applies the
 * entity's rules and checks existence before it writes through the
 * repository, and passes the repository's answers and errors through
 * unchanged.
 */
module UseCase {
  import opened Wrappers
  import opened Domain
  import opened Repository

  /** Why a use case failed. */
  datatype Error =
    | Invalid(reason: ValidationError)  // the entity's title rule
    | NotFound                          // update or toggle of an id with no row
    | Storage(cause: StorageError)      // a repository error, passed through

  /** The entity rule holds for every stored todo. */
  ghost predicate TitlesValid(s: Store) {
    forall id :: id in s.rows ==> ValidTitle(s.rows[id].title)
  }

  /** A repository error as the use case returns it. */
  function Propagated(err: Option<StorageError>): Option<Error> {
    match err
    case None => None
    case Some(e) => Some(Storage(e))
  }

  /** Writes that carry a valid title keep every stored title valid. */
  lemma ApplyKeepsTitlesValid(s: Store, w: Write)
    requires TitlesValid(s)
    requires !w.Remove? ==> ValidTitle(w.title)
    ensures TitlesValid(Apply(s, w))
  {
  }

  class TodoUseCase {
    const repo: TodoRepository

    ghost predicate Valid()
      reads this, repo, repo.clock
    {
      repo.Valid() && TitlesValid(repo.Contents())
    }

    constructor (repo: TodoRepository)
      ensures this.repo == repo
    {
      this.repo := repo;
    }

    /**
     * Builds an uncompleted todo, validates it and inserts it. A title that
     * fails validation is reported without any write and without reading
     * the clock; otherwise the stored row and the returned entity agree.
     */
    method CreateTodo(title: Bytes, description: Bytes) returns (r: Result<Todo, Error>)
      requires Valid()
      modifies repo, repo.clock
      ensures Valid() && repo.fault == old(repo.fault)
      ensures !ValidTitle(title) ==>
        && r == Failure(Invalid(TitleCheck(title).value))
        && repo.Contents() == old(repo.Contents())
        && repo.clock.reading == old(repo.clock.reading)
      ensures ValidTitle(title) && repo.fault.Some? ==>
        r == Failure(Storage(repo.fault.value)) && repo.Contents() == old(repo.Contents())
      ensures ValidTitle(title) && repo.fault.None? ==>
        && r.Success? && fresh(r.value)
        && r.value.Value() == TodoRow(old(repo.nextId), title, description, false, repo.clock.reading, repo.clock.reading)
        && repo.Contents() == Apply(old(repo.Contents()), Insert(title, description, false, repo.clock.reading))
        && repo.rows[r.value.id] == r.value.Value()
    {
      var todo := new Todo(title, description, false);
      var invalid := todo.Validate();
      if invalid.Some? {
        return Failure(Invalid(invalid.value));
      }
      var err := repo.Create(todo);
      if err.Some? {
        return Failure(Storage(err.value));
      }
      return Success(todo);
    }

    /** Every todo, newest first, as the repository lists them. */
    method GetAllTodos() returns (r: Result<seq<Todo>, StorageError>, ghost listing: seq<TodoRow>)
      requires Valid()
      ensures repo.fault.Some? ==> r == Failure(repo.fault.value)
      ensures repo.fault.None? ==> r.Success? && IsListing(repo.rows, listing) && |r.value| == |listing|
      ensures repo.fault.None? ==>
        forall i :: 0 <= i < |listing| ==> fresh(r.value[i]) && r.value[i].Value() == listing[i]
    {
      r, listing := repo.FindAll();
    }

    /** The repository's answer for that id, Absent included, unchanged. */
    method GetTodoByID(id: int) returns (r: Fetched)
      ensures repo.fault.Some? ==> r == Failed(repo.fault.value)
      ensures repo.fault.None? && id !in repo.rows ==> r == Absent
      ensures repo.fault.None? && id in repo.rows ==> r.Found? && fresh(r.todo) && r.todo.Value() == repo.rows[id]
    {
      r := repo.FindByID(id);
    }

    /**
     * Replaces title, description and completed of an existing todo. A
     * lookup error comes first, then a missing id, then an invalid title;
     * each of them leaves the table as it was.
     */
    method UpdateTodo(id: int, title: Bytes, description: Bytes, completed: bool) returns (err: Option<Error>)
      requires Valid()
      modifies repo, repo.clock
      ensures Valid() && repo.fault == old(repo.fault)
      ensures repo.fault.Some? ==> err == Some(Storage(repo.fault.value)) && repo.Contents() == old(repo.Contents())
      ensures repo.fault.None? && id !in old(repo.rows) ==>
        err == Some(NotFound) && repo.Contents() == old(repo.Contents())
      ensures repo.fault.None? && id in old(repo.rows) && !ValidTitle(title) ==>
        err == Some(Invalid(TitleCheck(title).value)) && repo.Contents() == old(repo.Contents())
      ensures repo.fault.None? && id in old(repo.rows) && ValidTitle(title) ==>
        && err == None
        && repo.Contents() == Apply(old(repo.Contents()), Overwrite(id, title, description, completed, repo.clock.reading))
        && repo.rows[id].createdAt == old(repo.rows[id].createdAt)
    {
      var found := repo.FindByID(id);
      match found
      case Failed(e) =>
        return Some(Storage(e));
      case Absent =>
        return Some(NotFound);
      case Found(todo) =>
        todo.title := title;
        todo.description := description;
        todo.completed := completed;
        var invalid := todo.Validate();
        if invalid.Some? {
          return Some(Invalid(invalid.value));
        }
        var e := repo.Update(todo);
        return Propagated(e);
    }

    /**
     * Flips the completion of an existing todo and writes it back, without
     * validating it again. The stored update time moves forward.
     */
    method ToggleTodo(id: int) returns (err: Option<Error>)
      requires Valid()
      modifies repo, repo.clock
      ensures Valid() && repo.fault == old(repo.fault)
      ensures repo.fault.Some? ==> err == Some(Storage(repo.fault.value)) && repo.Contents() == old(repo.Contents())
      ensures repo.fault.None? && id !in old(repo.rows) ==>
        err == Some(NotFound) && repo.Contents() == old(repo.Contents())
      ensures repo.fault.None? && id in old(repo.rows) ==>
        && err == None
        && repo.Contents() == Apply(old(repo.Contents()),
             Overwrite(id, old(repo.rows[id].title), old(repo.rows[id].description),
                       !old(repo.rows[id].completed), repo.clock.reading))
        && repo.rows[id].completed == !old(repo.rows[id].completed)
        && repo.rows[id].updatedAt > old(repo.rows[id].updatedAt)
    {
      var found := repo.FindByID(id);
      match found
      case Failed(e) =>
        return Some(Storage(e));
      case Absent =>
        return Some(NotFound);
      case Found(todo) =>
        todo.Toggle(repo.clock);
        var e := repo.Update(todo);
        return Propagated(e);
    }

    /**
     * Deletes without looking the id up first: deleting an id with no row
     * succeeds and changes nothing, unlike update and toggle.
     */
    method DeleteTodo(id: int) returns (err: Option<Error>)
      requires Valid()
      modifies repo
      ensures Valid() && repo.fault == old(repo.fault)
      ensures repo.fault.Some? ==> err == Some(Storage(repo.fault.value)) && repo.Contents() == old(repo.Contents())
      ensures repo.fault.None? ==> err == None && repo.Contents() == Apply(old(repo.Contents()), Remove(id))
      ensures repo.fault.None? && id !in old(repo.rows) ==> err == None && repo.Contents() == old(repo.Contents())
    {
      var e := repo.Delete(id);
      return Propagated(e);
    }
  }
}
