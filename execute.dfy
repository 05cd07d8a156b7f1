/** The execute methods of the locky.commands classes: each validates its
    argument string, calls the task list, and returns the response text or the
    exception it throws. writeOk says whether the save the list makes succeeds. */
module Execute {
  import opened Errors
  import opened Text
  import opened Dates
  import opened Tasks
  import opened Storage
  import opened TaskLists
  import opened Parser
  import opened Commands

  function WhichTask(verb: string): string {
    "Which task number to " + verb + "? e.g., \"" + verb + " 2\""
  }

  function NotANumber(indexArg: string, verb: string): string {
    "Not a number: \"" + indexArg + "\". Try \"" + verb + " 2\"."
  }

  const TodoNeeds: string := "Todo needs a description. Try: \"todo buy milk\""
  const FindNeeds: string := "Find needs a description. Try: \"find milk\""
  const AlreadyDone: string := "You locked in once " + "you don't have to do this again"
  const NowDone: string := "Locked In! Task marked as completed:"
  const StillNotDone: string := "Oh.... it's still not done."
  const NowUndone: string := "Ok, undone. Back to work!"
  const Forgotten: string := "Ok, so let's just forget that task existed...\n"
  const EmptyListHeader: string := "Looky looky your Locky task list is empty! Time to get started!\n"
  const ListHeader: string := "Oh my, look at all these tasks! Chop chop!\n"

  /** The index check of mark, unmark and delete: a blank argument, then one
      Integer.parseInt rejects, is refused. */
  function IndexArgument(indexArg: string, verb: string): (r: Result<int, Error>)
    ensures r.Ok? <==> !IsBlank(indexArg) && ParseInt(indexArg).Some?
    ensures r.Ok? ==> MinInt <= r.value <= MaxInt && Some(r.value) == ParseInt(indexArg)
    ensures IsBlank(indexArg) ==> r == Err(Locky(WhichTask(verb)))
    ensures !IsBlank(indexArg) && ParseInt(indexArg).None? ==> r == Err(Locky(NotANumber(indexArg, verb)))
  {
    if IsBlank(indexArg) then
      Err(Locky(WhichTask(verb)))
    else
      match ParseInt(indexArg)
      case None => Err(Locky(NotANumber(indexArg, verb)))
      case Some(idx) => Ok(idx)
  }

  /** The index is parseInt's value, so a sign or leading zeros are accepted. */
  lemma IndexArgumentAcceptsSignAndZeros(verb: string)
    ensures IndexArgument("+2", verb) == Ok(2)
    ensures IndexArgument("007", verb) == Ok(7)
  {
    ParseIntAcceptsNonCanonical();
    assert !IsJavaWhitespace("+2"[0]) && !IsJavaWhitespace("007"[0]);
  }

  /** The number a task is listed under is accepted as its index. */
  lemma IndexArgumentOfNumeral(n: int, verb: string)
    requires MinInt <= n <= MaxInt
    ensures IndexArgument(IntToString(n), verb) == Ok(n)
  {
    ParseIntOfIntToString(n);
    IntToStringHasNoSpace(n);
    var s := IntToString(n);
    assert !IsJavaWhitespace(s[0]);
  }

  /** The response to a successful add. */
  function Added(t: Task, display: DateTime -> string): string {
    "Added: " + Render(t, display) + "\n"
  }

  /** The response of mark, chosen by the done flag read before marking. */
  function MarkResponse(before: Task, display: DateTime -> string): string {
    (if before.done then AlreadyDone else NowDone) + ("\n" + Render(SetDone(before), display) + "\n")
  }

  /** The response of unmark, chosen by the done flag read before unmarking. */
  function UnmarkResponse(before: Task, display: DateTime -> string): string {
    (if !before.done then StillNotDone else NowUndone) + ("\n" + Render(SetUndone(before), display) + "\n")
  }

  /** The mark response opens with "You locked in..." exactly when the task
      was already done, and with "Locked In!..." exactly when it was not. */
  lemma MarkResponseTellsPriorState(before: Task, display: DateTime -> string)
    ensures AlreadyDone <= MarkResponse(before, display) <==> before.done
    ensures NowDone <= MarkResponse(before, display) <==> !before.done
  {
    var tail := "\n" + Render(SetDone(before), display) + "\n";
    OpeningsDiffer();
    if before.done {
      assert MarkResponse(before, display) == AlreadyDone + tail;
      OpeningDecides(AlreadyDone, NowDone, tail, 0);
    } else {
      assert MarkResponse(before, display) == NowDone + tail;
      OpeningDecides(NowDone, AlreadyDone, tail, 0);
    }
  }

  /** The unmark response opens with "Oh.... it's still not done." exactly
      when the task was not done, and with "Ok, undone..." exactly when it was. */
  lemma UnmarkResponseTellsPriorState(before: Task, display: DateTime -> string)
    ensures StillNotDone <= UnmarkResponse(before, display) <==> !before.done
    ensures NowUndone <= UnmarkResponse(before, display) <==> before.done
  {
    var tail := "\n" + Render(SetUndone(before), display) + "\n";
    OpeningsDiffer();
    if before.done {
      assert UnmarkResponse(before, display) == NowUndone + tail;
      OpeningDecides(NowUndone, StillNotDone, tail, 1);
    } else {
      assert UnmarkResponse(before, display) == StillNotDone + tail;
      OpeningDecides(StillNotDone, NowUndone, tail, 1);
    }
  }

  /** Where the two openings of a response first differ. */
  lemma OpeningsDiffer()
    ensures 0 < |AlreadyDone| && 0 < |NowDone| && AlreadyDone[0] != NowDone[0]
    ensures 1 < |StillNotDone| && 1 < |NowUndone| && StillNotDone[1] != NowUndone[1]
  {
    assert AlreadyDone[0] == 'Y' && NowDone[0] == 'L';
    assert StillNotDone[1] == 'h' && NowUndone[1] == 'k';
  }

  /** A text starting with `a` does not start with `b` when the two differ at k. */
  lemma OpeningDecides(a: string, b: string, tail: string, k: nat)
    requires k < |a| && k < |b| && a[k] != b[k]
    ensures a <= a + tail && !(b <= a + tail)
  {
    assert (a + tail)[k] == a[k];
  }

  /** ListCommand.execute: a header chosen by emptiness, then the numbered list. */
  method ExecuteList(list: TaskList) returns (s: string)
    ensures s == (if list.tasks == [] then EmptyListHeader else ListHeader)
                 + Listing(list.tasks, list.formats.display)
  {
    var message := if list.IsEmpty() then EmptyListHeader else ListHeader;
    var listing := list.PrintList();
    s := message + listing;
  }

  /** FindCommand.execute: a blank keyword is refused; otherwise the matches,
      numbered. The list is not changed. */
  method ExecuteFind(keyword: string, list: TaskList) returns (r: Result<string, Error>)
    ensures IsBlank(keyword) ==> r == Err(Locky(FindNeeds))
    ensures !IsBlank(keyword) ==>
              r == Ok(FindResultsText(Matching(list.tasks, SearchKey(keyword)), list.formats.display))
  {
    if IsBlank(keyword) {
      return Err(Locky(FindNeeds));
    }
    var s := list.FormatFindResults(keyword);
    return Ok(s);
  }

  /** TodoCommand.execute: a blank description is refused with the list
      unchanged; otherwise the description, as given, becomes a new Todo. */
  method ExecuteTodo(description: string, list: TaskList, writeOk: bool) returns (r: Result<string, Error>)
    requires list.Valid()
    modifies list
    ensures list.Valid()
    ensures IsBlank(description) ==> r == Err(Locky(TodoNeeds)) && unchanged(list)
    ensures !IsBlank(description) ==>
              && list.tasks == old(list.tasks) + [NewTodo(description, false)]
              && (writeOk ==> list.file == Some(SaveLines(list.tasks, list.formats.display))
                              && r == Ok(Added(NewTodo(description, false), list.formats.display)))
              && (!writeOk ==> list.file == old(list.file) && r == Err(Io))
  {
    if IsBlank(description) {
      return Err(Locky(TodoNeeds));
    }
    var saved := list.AddTodo(description, writeOk);
    if saved.Err? {
      return Err(saved.error);
    }
    var last := list.GetTask(list.GetSize());
    assert last.Ok?;
    return Ok(Added(last.value, list.formats.display));
  }

  /** DeadlineCommand.execute: a parse error is the result, with the list
      unchanged; otherwise the parsed Deadline is added. parseDeadlineArgs
      throws no DateTimeParseException, so the conversion of one is not
      reached. */
  method ExecuteDeadline(args: string, list: TaskList, writeOk: bool) returns (r: Result<string, Error>)
    requires list.Valid()
    modifies list
    ensures list.Valid()
    ensures ParseDeadlineArgs(args, list.formats.input).Err? ==>
              r == Err(ParseDeadlineArgs(args, list.formats.input).error) && unchanged(list)
    ensures ParseDeadlineArgs(args, list.formats.input).Ok? ==>
              var pd := ParseDeadlineArgs(args, list.formats.input).value;
              var t := NewDeadline(pd.description, false, pd.due);
              && list.tasks == old(list.tasks) + [t]
              && (writeOk ==> list.file == Some(SaveLines(list.tasks, list.formats.display))
                              && r == Ok(Added(t, list.formats.display)))
              && (!writeOk ==> list.file == old(list.file) && r == Err(Io))
  {
    var pd :- ParseDeadlineArgs(args, list.formats.input);
    var saved := list.AddDeadline(pd.description, pd.due, writeOk);
    if saved.Err? {
      return Err(saved.error);
    }
    var last := list.GetTask(list.GetSize());
    assert last.Ok?;
    return Ok(Added(last.value, list.formats.display));
  }

  /** EventCommand.execute: a parse error (end not after start included) is
      the result, with the list unchanged; otherwise the parsed Event is added. */
  method ExecuteEvent(args: string, list: TaskList, writeOk: bool) returns (r: Result<string, Error>)
    requires list.Valid()
    modifies list
    ensures list.Valid()
    ensures ParseEventArgs(args, list.formats.input).Err? ==>
              r == Err(ParseEventArgs(args, list.formats.input).error) && unchanged(list)
    ensures ParseEventArgs(args, list.formats.input).Ok? ==>
              var pe := ParseEventArgs(args, list.formats.input).value;
              var t := Task(Event(pe.start, pe.end), pe.description, false);
              && list.tasks == old(list.tasks) + [t]
              && (writeOk ==> list.file == Some(SaveLines(list.tasks, list.formats.display))
                              && r == Ok(Added(t, list.formats.display)))
              && (!writeOk ==> list.file == old(list.file) && r == Err(Io))
  {
    var pe :- ParseEventArgs(args, list.formats.input);
    var saved := list.AddEvent(pe.description, pe.start, pe.end, writeOk);
    if saved.Err? {
      return Err(saved.error);
    }
    var last := list.GetTask(list.GetSize());
    assert last.Ok?;
    return Ok(Added(last.value, list.formats.display));
  }

  /** MarkCommand.execute: the argument checks, then the done flag is read
      (failing on a bad index before any change), then the task is marked. */
  method ExecuteMark(indexArg: string, list: TaskList, writeOk: bool) returns (r: Result<string, Error>)
    requires list.Valid()
    modifies list
    ensures list.Valid()
    ensures IndexArgument(indexArg, "mark").Err? ==>
              r == Err(IndexArgument(indexArg, "mark").error) && unchanged(list)
    ensures IndexArgument(indexArg, "mark").Ok? ==>
              var idx := IndexArgument(indexArg, "mark").value;
              && (!(1 <= idx <= |old(list.tasks)|) ==> r == Err(NoSuchTask(idx)) && unchanged(list))
              && (1 <= idx <= |old(list.tasks)| ==>
                    && list.tasks == MarkedAt(old(list.tasks), idx - 1)
                    && (writeOk ==> list.file == Some(SaveLines(list.tasks, list.formats.display))
                                    && r == Ok(MarkResponse(old(list.tasks)[idx - 1], list.formats.display)))
                    && (!writeOk ==> list.file == old(list.file) && r == Err(Io)))
  {
    var idx :- IndexArgument(indexArg, "mark");
    var wasDone :- list.IsTaskDone(idx);
    ghost var before := list.tasks[idx - 1];
    assert wasDone == before.done;
    var t :- list.Mark(idx, writeOk);
    assert t == SetDone(before);
    var message := if wasDone then AlreadyDone else NowDone;
    return Ok(message + ("\n" + Render(t, list.formats.display) + "\n"));
  }

  /** UnmarkCommand.execute: as mark, clearing the flag. */
  method ExecuteUnmark(indexArg: string, list: TaskList, writeOk: bool) returns (r: Result<string, Error>)
    requires list.Valid()
    modifies list
    ensures list.Valid()
    ensures IndexArgument(indexArg, "unmark").Err? ==>
              r == Err(IndexArgument(indexArg, "unmark").error) && unchanged(list)
    ensures IndexArgument(indexArg, "unmark").Ok? ==>
              var idx := IndexArgument(indexArg, "unmark").value;
              && (!(1 <= idx <= |old(list.tasks)|) ==> r == Err(NoSuchTask(idx)) && unchanged(list))
              && (1 <= idx <= |old(list.tasks)| ==>
                    && list.tasks == UnmarkedAt(old(list.tasks), idx - 1)
                    && (writeOk ==> list.file == Some(SaveLines(list.tasks, list.formats.display))
                                    && r == Ok(UnmarkResponse(old(list.tasks)[idx - 1], list.formats.display)))
                    && (!writeOk ==> list.file == old(list.file) && r == Err(Io)))
  {
    var idx :- IndexArgument(indexArg, "unmark");
    var wasDone :- list.IsTaskDone(idx);
    ghost var before := list.tasks[idx - 1];
    assert wasDone == before.done;
    var t :- list.Unmark(idx, writeOk);
    assert t == SetUndone(before);
    var message := if !wasDone then StillNotDone else NowUndone;
    return Ok(message + ("\n" + Render(t, list.formats.display) + "\n"));
  }

  /** DeleteCommand.execute: the argument checks, then the task is removed and
      shown. */
  method ExecuteDelete(indexArg: string, list: TaskList, writeOk: bool) returns (r: Result<string, Error>)
    requires list.Valid()
    modifies list
    ensures list.Valid()
    ensures IndexArgument(indexArg, "delete").Err? ==>
              r == Err(IndexArgument(indexArg, "delete").error) && unchanged(list)
    ensures IndexArgument(indexArg, "delete").Ok? ==>
              var idx := IndexArgument(indexArg, "delete").value;
              && (!(1 <= idx <= |old(list.tasks)|) ==> r == Err(NoSuchTask(idx)) && unchanged(list))
              && (1 <= idx <= |old(list.tasks)| ==>
                    && list.tasks == RemovedAt(old(list.tasks), idx - 1)
                    && (writeOk ==> list.file == Some(SaveLines(list.tasks, list.formats.display))
                                    && r == Ok(Forgotten + Render(old(list.tasks)[idx - 1], list.formats.display) + "\n"))
                    && (!writeOk ==> list.file == old(list.file) && r == Err(Io)))
  {
    var idx :- IndexArgument(indexArg, "delete");
    var t :- list.Delete(idx, writeOk);
    return Ok(Forgotten + Render(t, list.formats.display) + "\n");
  }

  /** Command.execute(list), dispatched on the command. */
  method Run(c: Command, list: TaskList, writeOk: bool) returns (r: Result<string, Error>)
    requires list.Valid()
    modifies list
    ensures list.Valid()
    ensures c.ListCommand? || c.FindCommand? ==> unchanged(list)
    ensures c.ListCommand? ==> r.Ok?
    // the file is either left alone or rewritten from the list as it now is
    ensures list.file == old(list.file) || list.file == Some(SaveLines(list.tasks, list.formats.display))
    // a change reported as done has been saved
    ensures r.Ok? && list.tasks != old(list.tasks) ==> list.file == Some(SaveLines(list.tasks, list.formats.display))
    // when the save fails, no command that changes the list reports success
    ensures !writeOk && r.Ok? ==> unchanged(list)
  {
    match c
    case ListCommand =>
      var s := ExecuteList(list);
      r := Ok(s);
    case FindCommand(keyword) =>
      r := ExecuteFind(keyword, list);
    case TodoCommand(_) =>
      r := RunAdding(c, list, writeOk);
    case DeadlineCommand(_) =>
      r := RunAdding(c, list, writeOk);
    case EventCommand(_) =>
      r := RunAdding(c, list, writeOk);
    case MarkCommand(_) =>
      r := RunIndexed(c, list, writeOk);
    case UnmarkCommand(_) =>
      r := RunIndexed(c, list, writeOk);
    case DeleteCommand(_) =>
      r := RunIndexed(c, list, writeOk);
  }

  /** The commands that add a task: todo, deadline and event. */
  method RunAdding(c: Command, list: TaskList, writeOk: bool) returns (r: Result<string, Error>)
    requires c.TodoCommand? || c.DeadlineCommand? || c.EventCommand?
    requires list.Valid()
    modifies list
    ensures list.Valid()
    // the file is either left alone or rewritten from the list as it now is
    ensures list.file == old(list.file) || list.file == Some(SaveLines(list.tasks, list.formats.display))
    // a change reported as done has been saved
    ensures r.Ok? && list.tasks != old(list.tasks) ==> list.file == Some(SaveLines(list.tasks, list.formats.display))
    // when the save fails, no command that changes the list reports success
    ensures !writeOk && r.Ok? ==> unchanged(list)
  {
    match c
    case TodoCommand(description) =>
      r := ExecuteTodo(description, list, writeOk);
    case DeadlineCommand(args) =>
      r := ExecuteDeadline(args, list, writeOk);
    case EventCommand(args) =>
      r := ExecuteEvent(args, list, writeOk);
  }

  /** The commands that take a task number: mark, unmark and delete. */
  method RunIndexed(c: Command, list: TaskList, writeOk: bool) returns (r: Result<string, Error>)
    requires c.MarkCommand? || c.UnmarkCommand? || c.DeleteCommand?
    requires list.Valid()
    modifies list
    ensures list.Valid()
    // the file is either left alone or rewritten from the list as it now is
    ensures list.file == old(list.file) || list.file == Some(SaveLines(list.tasks, list.formats.display))
    // a change reported as done has been saved
    ensures r.Ok? && list.tasks != old(list.tasks) ==> list.file == Some(SaveLines(list.tasks, list.formats.display))
    // when the save fails, no command that changes the list reports success
    ensures !writeOk && r.Ok? ==> unchanged(list)
  {
    match c
    case MarkCommand(indexArg) =>
      r := ExecuteMark(indexArg, list, writeOk);
    case UnmarkCommand(indexArg) =>
      r := ExecuteUnmark(indexArg, list, writeOk);
    case DeleteCommand(indexArg) =>
      r := ExecuteDelete(indexArg, list, writeOk);
  }
}
