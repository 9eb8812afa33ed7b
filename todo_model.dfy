/** The mutable Todo record. Java's nullable fields are `Option`s. */
module TodoModel {
  import opened Wrappers

  /** A point in time (`java.time.Instant`), supplied by the caller. */
  type Instant = int

  /** The contents of a Todo at one moment. */
  datatype TodoValue = TodoValue(id: Option<string>, title: Option<string>, completed: bool, createdAt: Option<Instant>)

  class Todo {
    var id: Option<string>
    var title: Option<string>
    var completed: bool
    var createdAt: Option<Instant>

    /** The no-argument constructor: every reference field null, not completed. */
    constructor Empty()
      ensures Value() == TodoValue(None, None, false, None)
    {
      id := None;
      title := None;
      completed := false;
      createdAt := None;
    }

    constructor (id: Option<string>, title: Option<string>, completed: bool, createdAt: Option<Instant>)
      ensures Value() == TodoValue(id, title, completed, createdAt)
    {
      this.id := id;
      this.title := title;
      this.completed := completed;
      this.createdAt := createdAt;
    }

    /** The current field values; the four getters read these. */
    function Value(): TodoValue
      reads this
    {
      TodoValue(id, title, completed, createdAt)
    }

    method SetId(id: Option<string>)
      modifies this
      ensures Value() == old(Value()).(id := id)
    {
      this.id := id;
    }

    method SetTitle(title: Option<string>)
      modifies this
      ensures Value() == old(Value()).(title := title)
    {
      this.title := title;
    }

    method SetCompleted(completed: bool)
      modifies this
      ensures Value() == old(Value()).(completed := completed)
    {
      this.completed := completed;
    }

    method SetCreatedAt(createdAt: Option<Instant>)
      modifies this
      ensures Value() == old(Value()).(createdAt := createdAt)
    {
      this.createdAt := createdAt;
    }
  }
}
