/**
 * The repository contract (internal/usecase/todo_repository.go) as an
 * in-memory table with the row behaviour of the SQL implementation: ids
 * from a SERIAL sequence, timestamps stamped by the repository, update of
 * an absent id and delete of an absent id as silent no-ops, "no rows" as
 * an answer distinct from an error, and listing newest first.
 */
module Repository {
  import opened Wrappers
  import opened Domain

  /** An error reported by the database, handed back unchanged. */
  datatype StorageError = StorageError(message: string)

  /** The table's rows by id, and the next value of the id sequence. */
  datatype Store = Store(rows: map<int, TodoRow>, nextId: int)

  /** The three statements that change the table. */
  datatype Write =
    | Insert(title: Bytes, description: Bytes, completed: bool, now: Time)
    | Overwrite(id: int, title: Bytes, description: Bytes, completed: bool, now: Time)
    | Remove(id: int)

  /**
   * The table after one statement. An insert takes the next id and stamps
   * both timestamps; an overwrite replaces title, description, completed
   * and the update time of the row with that id, if there is one; a remove
   * deletes the row, if there is one.
   */
  function Apply(s: Store, w: Write): Store {
    match w
    case Insert(title, description, completed, now) =>
      Store(s.rows[s.nextId := TodoRow(s.nextId, title, description, completed, now, now)], s.nextId + 1)
    case Overwrite(id, title, description, completed, now) =>
      if id in s.rows then
        var row := s.rows[id].(title := title, description := description, completed := completed, updatedAt := now);
        Store(s.rows[id := row], s.nextId)
      else
        s
    case Remove(id) =>
      Store(s.rows - {id}, s.nextId)
  }

  /** The table after a series of statements, in order. */
  function Run(s: Store, ws: seq<Write>): Store
    decreases |ws|
  {
    if ws == [] then s else Run(Apply(s, ws[0]), ws[1..])
  }

  /** Every row sits under its own id, below the sequence's next value, and was not updated before it was created. */
  ghost predicate Consistent(s: Store) {
    && 1 <= s.nextId
    && forall id :: id in s.rows ==>
         && 1 <= id < s.nextId
         && s.rows[id].id == id
         && s.rows[id].createdAt <= s.rows[id].updatedAt
  }

  /** Every row was last written no later than `now`. */
  ghost predicate WrittenBy(s: Store, now: Time) {
    forall id :: id in s.rows ==> s.rows[id].updatedAt <= now
  }

  /** The time a statement stamps, if it stamps one. */
  function StampOf(w: Write): Option<Time> {
    match w
    case Insert(_, _, _, now) => Some(now)
    case Overwrite(_, _, _, _, now) => Some(now)
    case Remove(_) => None
  }

  /** A statement stamped no earlier than every row's last write keeps the table consistent. */
  lemma ApplyKeepsConsistent(s: Store, w: Write)
    requires Consistent(s)
    requires StampOf(w).Some? ==> WrittenBy(s, StampOf(w).value)
    ensures Consistent(Apply(s, w))
    ensures Apply(s, w).nextId >= s.nextId
  {
  }

  /**
   * Ids are never reused: an id below the sequence's next value that has
   * no row (it was deleted, or its insert failed) never gets one again.
   */
  lemma {:induction false} RunNeverReusesIds(s: Store, ws: seq<Write>, id: int)
    requires id < s.nextId && id !in s.rows
    ensures id !in Run(s, ws).rows
    ensures Run(s, ws).nextId >= s.nextId
    decreases |ws|
  {
    if ws != [] {
      RunNeverReusesIds(Apply(s, ws[0]), ws[1..], id);
    }
  }

  /** Once a row is deleted, no later series of statements brings its id back. */
  lemma DeletedIdStaysDeleted(s: Store, id: int, ws: seq<Write>)
    requires Consistent(s) && id in s.rows
    ensures id !in Run(Apply(s, Remove(id)), ws).rows
  {
    RunNeverReusesIds(Apply(s, Remove(id)), ws, id);
  }

  /** Rows in the order of `ORDER BY created_at DESC`. */
  ghost predicate NewestFirst(s: seq<TodoRow>) {
    forall i, j :: 0 <= i < j < |s| ==> s[i].createdAt >= s[j].createdAt
  }

  /** No id appears twice. */
  ghost predicate DistinctIds(s: seq<TodoRow>) {
    forall i, j :: 0 <= i < j < |s| ==> s[i].id != s[j].id
  }

  /** The ids of a sequence of rows. */
  ghost function IdsOf(s: seq<TodoRow>): set<int> {
    set i | 0 <= i < |s| :: s[i].id
  }

  /** `s` holds the rows of `rows` under the ids in `ids`, each once, newest first. */
  ghost predicate Lists(rows: map<int, TodoRow>, ids: set<int>, s: seq<TodoRow>) {
    && IdsOf(s) == ids
    && (forall i :: 0 <= i < |s| ==> s[i].id in rows && rows[s[i].id] == s[i])
    && DistinctIds(s)
    && NewestFirst(s)
  }

  /** `s` is what a query for every row of `rows` returns: each row once, newest first. */
  ghost predicate IsListing(rows: map<int, TodoRow>, s: seq<TodoRow>) {
    Lists(rows, rows.Keys, s)
  }

  /** Where a row goes in a newest-first listing: after the rows created at its time or later, before the older ones. */
  function InsertionPoint(s: seq<TodoRow>, row: TodoRow): (k: nat)
    requires NewestFirst(s)
    ensures k <= |s|
    ensures forall i :: 0 <= i < k ==> s[i].createdAt >= row.createdAt
    ensures forall i :: k <= i < |s| ==> s[i].createdAt < row.createdAt
    decreases |s|
  {
    if |s| == 0 || s[0].createdAt < row.createdAt then 0
    else 1 + InsertionPoint(s[1..], row)
  }

  /** Putting a row at its insertion point keeps the listing newest first. */
  lemma SpliceNewestFirst(s: seq<TodoRow>, row: TodoRow, k: nat)
    requires NewestFirst(s) && k <= |s|
    requires forall i :: 0 <= i < k ==> s[i].createdAt >= row.createdAt
    requires forall i :: k <= i < |s| ==> s[i].createdAt < row.createdAt
    ensures NewestFirst(s[..k] + [row] + s[k..])
  {
  }

  /** Putting one more row, under its own id, at its insertion point lists one more id. */
  lemma SpliceLists(rows: map<int, TodoRow>, ids: set<int>, s: seq<TodoRow>, key: int)
    requires Lists(rows, ids, s)
    requires key in rows && key !in ids && rows[key].id == key
    ensures var k := InsertionPoint(s, rows[key]);
      Lists(rows, ids + {key}, s[..k] + [rows[key]] + s[k..])
  {
    var row := rows[key];
    var k := InsertionPoint(s, row);
    var t := s[..k] + [row] + s[k..];
    SpliceNewestFirst(s, row, k);
    SpliceAt(s, row, k);
    forall i | 0 <= i < |t| ensures t[i].id in rows && rows[t[i].id] == t[i] {
      if i != k { assert t[i] == s[if i < k then i else i - 1]; }
    }
    forall i | 0 <= i < |s| ensures s[i].id in ids {
      assert s[i].id in IdsOf(s);
    }
    forall i, j | 0 <= i < j < |t| ensures t[i].id != t[j].id {
      var i' := if i <= k then i else i - 1;
      var j' := if j <= k then j else j - 1;
      if i != k && j != k {
        assert t[i] == s[i'] && t[j] == s[j'] && i' < j';
      } else if i == k {
        assert t[j] == s[j'];
      } else {
        assert t[i] == s[i'];
      }
    }
    IdsOfSplice(s, row, k);
  }

  /** Putting a row into a sequence adds its id to the sequence's ids. */
  lemma IdsOfSplice(s: seq<TodoRow>, row: TodoRow, k: nat)
    requires k <= |s|
    ensures IdsOf(s[..k] + [row] + s[k..]) == IdsOf(s) + {row.id}
  {
    var t := s[..k] + [row] + s[k..];
    SpliceAt(s, row, k);
    forall id | id in IdsOf(t) ensures id in IdsOf(s) + {row.id} {
      var i :| 0 <= i < |t| && t[i].id == id;
      if i < k { assert s[i].id == id; }
      else if i > k { assert s[i - 1].id == id; }
    }
    forall id | id in IdsOf(s) + {row.id} ensures id in IdsOf(t) {
      if id == row.id {
        assert t[k].id == id;
      } else {
        var i :| 0 <= i < |s| && s[i].id == id;
        var j := if i < k then i else i + 1;
        assert t[j].id == id;
      }
    }
  }

  /** Where each element of a sequence lands when one element is put at position k. */
  lemma SpliceAt(s: seq<TodoRow>, row: TodoRow, k: nat)
    requires k <= |s|
    ensures var t := s[..k] + [row] + s[k..];
      && |t| == |s| + 1
      && t[k] == row
      && (forall i :: 0 <= i < k ==> t[i] == s[i])
      && (forall i :: k < i < |t| ==> t[i] == s[i - 1])
  {
  }

  /** A sequence of rows with distinct ids has as many ids as rows. */
  lemma {:induction false} DistinctIdsCount(s: seq<TodoRow>)
    requires DistinctIds(s)
    ensures |IdsOf(s)| == |s|
  {
    if s != [] {
      var rest := s[1..];
      DistinctIdsCount(rest);
      assert IdsOf(s) == {s[0].id} + IdsOf(rest) by {
        forall x | x in IdsOf(s) ensures x in {s[0].id} + IdsOf(rest) {
          var i :| 0 <= i < |s| && s[i].id == x;
          if i > 0 { assert rest[i - 1].id == x; }
        }
        forall x | x in IdsOf(rest) ensures x in IdsOf(s) {
          var i :| 0 <= i < |rest| && rest[i].id == x;
          assert s[i + 1].id == x;
        }
      }
      assert s[0].id !in IdsOf(rest);
    }
  }

  /** A listing holds exactly as many rows as the table. */
  lemma ListingLength(rows: map<int, TodoRow>, s: seq<TodoRow>)
    requires IsListing(rows, s)
    ensures |s| == |rows|
  {
    DistinctIdsCount(s);
    assert |rows| == |rows.Keys|;
  }

  /**
   * A non-empty set of ids has a member to pick. Under the verifier's
   * contradictory-assumption checking, `ids != {}` alone does not
   * establish the existence a `:|` choice needs.
   */
  lemma HasMember(ids: set<int>)
    requires ids != {}
    ensures exists id :: id in ids
  {
    if forall id :: id !in ids {
      assert false;
    }
  }

  /** The answer of a lookup by id: a todo, no row, or an error. */
  datatype Fetched = Found(todo: Todo) | Absent | Failed(error: StorageError)

  /**
   * An in-memory stand-in for the SQL table behind the repository
   * interface. `fault` stands for the state of the connection: while it
   * holds an error, every operation fails with it and writes nothing.
   */
  class TodoRepository {
    var rows: map<int, TodoRow>
    var nextId: int
    var fault: Option<StorageError>
    const clock: Clock

    function Contents(): Store
      reads this
    {
      Store(rows, nextId)
    }

    ghost predicate Valid()
      reads this, clock
    {
      Consistent(Contents()) && WrittenBy(Contents(), clock.reading)
    }

    /** An empty table on a healthy connection whose sequence starts at 1. */
    constructor (clock: Clock)
      ensures Valid() && this.clock == clock
      ensures Contents() == Store(map[], 1) && fault == None
    {
      rows := map[];
      nextId := 1;
      fault := None;
      this.clock := clock;
    }

    /**
     * Stamps both timestamps of `todo` with one clock reading (also when the
     * insert then fails), inserts it and writes the new id back into it.
     */
    method Create(todo: Todo) returns (err: Option<StorageError>)
      requires Valid()
      modifies this, todo, clock
      ensures Valid() && fault == old(fault) && err == fault
      ensures clock.reading > old(clock.reading)
      ensures todo.title == old(todo.title) && todo.description == old(todo.description)
      ensures todo.completed == old(todo.completed)
      ensures todo.createdAt == todo.updatedAt == clock.reading
      ensures fault.Some? ==> Contents() == old(Contents()) && todo.id == old(todo.id)
      ensures fault.None? ==> todo.id == old(nextId) && old(nextId) !in old(rows)
      ensures fault.None? ==>
        Contents() == Apply(old(Contents()), Insert(todo.title, todo.description, todo.completed, clock.reading))
      ensures fault.None? ==> todo.id in rows && rows[todo.id] == todo.Value()
    {
      var now := clock.Now();
      todo.createdAt := now;
      todo.updatedAt := now;
      if fault.Some? {
        return fault;
      }
      ApplyKeepsConsistent(Contents(), Insert(todo.title, todo.description, todo.completed, now));
      todo.id := nextId;
      rows := rows[nextId := todo.Value()];
      nextId := nextId + 1;
      return None;
    }

    /** The row with that id as a new entity, Absent if there is none, or the connection's error. */
    method FindByID(id: int) returns (r: Fetched)
      ensures fault.Some? ==> r == Failed(fault.value)
      ensures fault.None? && id !in rows ==> r == Absent
      ensures fault.None? && id in rows ==> r.Found? && fresh(r.todo) && r.todo.Value() == rows[id]
    {
      if fault.Some? {
        return Failed(fault.value);
      }
      if id !in rows {
        return Absent;
      }
      var todo := new Todo.FromRow(rows[id]);
      return Found(todo);
    }

    /** Every row of the table, newest first, each row once. */
    method ListRows() returns (listing: seq<TodoRow>)
      requires Valid()
      ensures IsListing(rows, listing)
    {
      var pending := rows.Keys;
      listing := [];
      while pending != {}
        invariant pending <= rows.Keys
        invariant Lists(rows, rows.Keys - pending, listing)
        decreases pending
      {
        HasMember(pending);
        var key :| key in pending;
        SpliceLists(rows, rows.Keys - pending, listing, key);
        var k := InsertionPoint(listing, rows[key]);
        listing := listing[..k] + [rows[key]] + listing[k..];
        assert rows.Keys - (pending - {key}) == (rows.Keys - pending) + {key};
        pending := pending - {key};
      }
      assert rows.Keys - pending == rows.Keys;
    }

    /** Every row as a new entity, newest first; an empty table gives an empty sequence. */
    method FindAll() returns (r: Result<seq<Todo>, StorageError>, ghost listing: seq<TodoRow>)
      requires Valid()
      ensures fault.Some? ==> r == Failure(fault.value)
      ensures fault.None? ==> r.Success? && IsListing(rows, listing) && |r.value| == |listing| == |rows|
      ensures fault.None? ==> forall i :: 0 <= i < |listing| ==> fresh(r.value[i]) && r.value[i].Value() == listing[i]
    {
      if fault.Some? {
        return Failure(fault.value), [];
      }
      var found := ListRows();
      listing := found;
      ListingLength(rows, listing);
      var todos: seq<Todo> := [];
      var i := 0;
      while i < |found|
        invariant 0 <= i <= |found| && |todos| == i
        invariant forall j :: 0 <= j < i ==> fresh(todos[j]) && todos[j].Value() == found[j]
      {
        var todo := new Todo.FromRow(found[i]);
        todos := todos + [todo];
        i := i + 1;
      }
      return Success(todos), listing;
    }

    /**
     * Stamps the update time of `todo` (also when the statement then fails)
     * and writes its title, description, completed flag and update time to
     * the row with its id; with no such row nothing changes and no error is
     * reported.
     */
    method Update(todo: Todo) returns (err: Option<StorageError>)
      requires Valid()
      modifies this, todo, clock
      ensures Valid() && fault == old(fault) && err == fault
      ensures clock.reading > old(clock.reading)
      ensures todo.Value() == old(todo.Value()).(updatedAt := clock.reading)
      ensures fault.Some? ==> Contents() == old(Contents())
      ensures fault.None? ==>
        Contents() == Apply(old(Contents()), Overwrite(todo.id, todo.title, todo.description, todo.completed, clock.reading))
      ensures fault.None? && todo.id !in old(rows) ==> Contents() == old(Contents())
    {
      todo.updatedAt := clock.Now();
      if fault.Some? {
        return fault;
      }
      ApplyKeepsConsistent(Contents(), Overwrite(todo.id, todo.title, todo.description, todo.completed, todo.updatedAt));
      if todo.id in rows {
        rows := rows[todo.id := rows[todo.id].(title := todo.title, description := todo.description,
                                                completed := todo.completed, updatedAt := todo.updatedAt)];
      }
      return None;
    }

    /** Deletes the row with that id; with no such row nothing changes and no error is reported. */
    method Delete(id: int) returns (err: Option<StorageError>)
      requires Valid()
      modifies this
      ensures Valid() && fault == old(fault) && err == fault
      ensures fault.Some? ==> Contents() == old(Contents())
      ensures fault.None? ==> Contents() == Apply(old(Contents()), Remove(id)) && id !in rows
      ensures fault.None? && id !in old(rows) ==> Contents() == old(Contents())
    {
      if fault.Some? {
        return fault;
      }
      rows := rows - {id};
      return None;
    }
  }
}
