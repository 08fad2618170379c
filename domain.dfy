/**
 * The todo entity (internal/domain/todo.go): its fields, the title rule
 * checked by Validate, and the completion toggle. Timestamps come from a
 * Clock object that stands for Go's time.Now().
 */
module Domain {
  import opened Wrappers

  /** Go strings are byte strings, and `len` counts bytes. */
  type Bytes = seq<bv8>

  /** A clock reading; Go's zero time.Time is ZeroTime. */
  type Time = int

  const ZeroTime: Time := 0

  /** The bound on a title's length in bytes. */
  const MaxTitleLength: nat := 100

  /** The title rule every persisted todo satisfies. */
  ghost predicate ValidTitle(title: Bytes) {
    1 <= |title| <= MaxTitleLength
  }

  datatype ValidationError =
    | TitleRequired  // the title is empty
    | TitleTooLong   // the title is over MaxTitleLength bytes

  /**
   * None when the title is acceptable, otherwise the reason. The empty
   * check comes first, so an empty title never gets the length error.
   */
  function TitleCheck(title: Bytes): (err: Option<ValidationError>)
    ensures err.None? <==> ValidTitle(title)
    ensures |title| == 0 ==> err == Some(TitleRequired)
    ensures err == Some(TitleTooLong) <==> |title| > MaxTitleLength
  {
    if |title| == 0 then Some(TitleRequired)
    else if |title| > MaxTitleLength then Some(TitleTooLong)
    else None
  }

  /** The six columns of one todo, as a value (one row of the table). */
  datatype TodoRow = TodoRow(
    id: int,
    title: Bytes,
    description: Bytes,
    completed: bool,
    createdAt: Time,
    updatedAt: Time)

  /** The process clock: every reading is later than the one before. */
  class Clock {
    var reading: Time

    constructor (start: Time)
      ensures reading == start
    {
      reading := start;
    }

    method Now() returns (t: Time)
      modifies this
      ensures t == reading && old(reading) < reading
    {
      reading := reading + 1;
      t := reading;
    }
  }

  /** The entity; its methods update it in place, as Go's pointer receivers do. */
  class Todo {
    var id: int
    var title: Bytes
    var description: Bytes
    var completed: bool
    var createdAt: Time
    var updatedAt: Time

    /** A composite literal that sets title, description and completed; every other field is Go's zero value. */
    constructor (title: Bytes, description: Bytes, completed: bool)
      ensures Value() == TodoRow(0, title, description, completed, ZeroTime, ZeroTime)
    {
      this.id := 0;
      this.title := title;
      this.description := description;
      this.completed := completed;
      this.createdAt := ZeroTime;
      this.updatedAt := ZeroTime;
    }

    /** An entity scanned from a row. */
    constructor FromRow(row: TodoRow)
      ensures Value() == row
    {
      id := row.id;
      title := row.title;
      description := row.description;
      completed := row.completed;
      createdAt := row.createdAt;
      updatedAt := row.updatedAt;
    }

    function Value(): TodoRow
      reads this
    {
      TodoRow(id, title, description, completed, createdAt, updatedAt)
    }

    /** The title check of the entity: it looks at no field but the title. */
    function Validate(): (err: Option<ValidationError>)
      reads this
      ensures err == TitleCheck(title)
    {
      TitleCheck(title)
    }

    /** Flips the completion flag and stamps the update time from the clock. */
    method Toggle(clock: Clock)
      modifies this, clock
      ensures clock.reading > old(clock.reading)
      ensures Value() == Toggled(old(Value()), clock.reading)
    {
      completed := !completed;
      updatedAt := clock.Now();
    }
  }

  /** What Toggle makes of a todo at time `now`. */
  function Toggled(t: TodoRow, now: Time): TodoRow
  {
    t.(completed := !t.completed, updatedAt := now)
  }

  /** Toggling twice gives back the completion flag, and every field but the update time. */
  lemma ToggleTwiceRestores(t: TodoRow, first: Time, second: Time)
    ensures Toggled(Toggled(t, first), second) == t.(updatedAt := second)
  {
  }

  /** Validate depends on the title alone. */
  lemma ValidateReadsOnlyTitle(a: Todo, b: Todo)
    requires a.title == b.title
    ensures a.Validate() == b.Validate()
  {
  }
}
