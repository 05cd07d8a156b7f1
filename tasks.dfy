/** The task model: Task with its three kinds Todo, Deadline and Event. A task
    is a value; its one mutable attribute, the done flag, is changed by SetDone
    and SetUndone, whose results the task list stores in place of the old value. */
module Tasks {
  import opened Errors
  import opened Dates

  datatype Kind =
    | Todo
    | Deadline(due: DateTime)
    | Event(start: DateTime, end: DateTime)

  /** The description is final; `done` is the isDone field. */
  datatype Task = Task(kind: Kind, description: string, done: bool)

  /** The class invariant of Event: the end is strictly after the start. */
  predicate WellFormed(t: Task) {
    t.kind.Event? ==> Before(t.kind.start, t.kind.end)
  }

  const EventOrderMessage: string := "Locky.tasks.Event end must be after start."

  /** new Todo(description, isDone). */
  function NewTodo(description: string, isDone: bool): (t: Task)
    ensures WellFormed(t) && t.kind.Todo?
    ensures t.description == description && t.done == isDone
  {
    Task(Todo, description, isDone)
  }

  /** new Deadline(description, isDone, deadline); the deadline is never null. */
  function NewDeadline(description: string, isDone: bool, deadline: DateTime): (t: Task)
    ensures WellFormed(t) && t.kind == Deadline(deadline)
    ensures t.description == description && t.done == isDone
  {
    Task(Deadline(deadline), description, isDone)
  }

  /** new Event(description, isDone, start, end): throws unless end is after start. */
  function NewEvent(description: string, isDone: bool, start: DateTime, end: DateTime)
    : (r: Result<Task, Error>)
    ensures r.Ok? <==> Before(start, end)
    ensures r.Ok? ==> WellFormed(r.value) && r.value.kind == Event(start, end)
    ensures r.Ok? ==> r.value.description == description && r.value.done == isDone
    ensures r.Err? ==> r.error == IllegalArgument(EventOrderMessage)
  {
    if Before(start, end) then
      Ok(Task(Event(start, end), description, isDone))
    else
      Err(IllegalArgument(EventOrderMessage))
  }

  /** Task.setDone(): only the flag changes, to true whatever it was. */
  function SetDone(t: Task): (r: Task)
    ensures r.done
    ensures r.kind == t.kind && r.description == t.description
    ensures WellFormed(r) <==> WellFormed(t)
  {
    t.(done := true)
  }

  /** Task.setUndone(): only the flag changes, to false whatever it was. */
  function SetUndone(t: Task): (r: Task)
    ensures !r.done
    ensures r.kind == t.kind && r.description == t.description
    ensures WellFormed(r) <==> WellFormed(t)
  {
    t.(done := false)
  }

  /** Task.toString(): the done tag and the description. */
  function StatusString(t: Task): string {
    (if t.done then "[X] " else "[ ] ") + t.description
  }

  function KindTag(k: Kind): string {
    match k
    case Todo => "[T]"
    case Deadline(_) => "[D]"
    case Event(_, _) => "[E]"
  }

  /** The toString of Todo, Deadline and Event; dates are DISPLAY-formatted. */
  function Render(t: Task, display: DateTime -> string): (r: string)
    ensures |r| >= 7 + |t.description|
    ensures r[..3] == KindTag(t.kind)
    ensures r[3..7] == (if t.done then "[X] " else "[ ] ")
    ensures r[7..7 + |t.description|] == t.description
    ensures t.kind.Todo? ==> |r| == 7 + |t.description|
    ensures t.kind.Deadline? ==> r[7 + |t.description|..] == " by: " + display(t.kind.due)
    ensures t.kind.Event? ==>
              r[7 + |t.description|..] == " from: " + display(t.kind.start) + " to: " + display(t.kind.end)
  {
    var head := KindTag(t.kind) + StatusString(t);
    assert head[..3] == KindTag(t.kind) && head[3..7] == (if t.done then "[X] " else "[ ] ");
    assert head[7..] == t.description;
    var tail := match t.kind
      case Todo => ""
      case Deadline(due) => " by: " + display(due)
      case Event(start, end) => " from: " + display(start) + " to: " + display(end);
    assert (head + tail)[7..7 + |t.description|] == head[7..];
    head + tail
  }

  /** The rendering tells the kind and the done state apart. */
  lemma RenderShowsKindAndState(t: Task, u: Task, display: DateTime -> string)
    requires Render(t, display) == Render(u, display)
    ensures KindTag(t.kind) == KindTag(u.kind) && t.done == u.done
  {
    assert Render(t, display)[..3] == Render(u, display)[..3];
    assert Render(t, display)[3..7] == Render(u, display)[3..7];
  }

  /** Marking twice is marking once, and so is unmarking. */
  lemma SetDoneIdempotent(t: Task)
    ensures SetDone(SetDone(t)) == SetDone(t) && SetUndone(SetUndone(t)) == SetUndone(t)
  {
  }
}
