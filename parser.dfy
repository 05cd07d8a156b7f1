/** locky.utils.Parser: turns an input line into a command word and its
    arguments, the arguments of deadline and event into their parts, and the
    command word into a Command. Dates are read with DateTimeFormat.INPUT,
    passed in as `input`. */
module Parser {
  import opened Errors
  import opened Text
  import opened Dates
  import opened ArgPatterns
  import opened Commands

  datatype ParsedCommand = ParsedCommand(command: string, args: string)
  datatype ParsedDeadline = ParsedDeadline(description: string, due: DateTime)
  datatype ParsedEvent = ParsedEvent(description: string, start: DateTime, end: DateTime)

  const SaySomething: string := "Say something? (try: todo \U{2026} / deadline \U{2026} / event \U{2026})"
  const DeadlineNeeds: string :=
    "Deadline needs \"description /by when\". Try: \"deadline CS2100 lab /by 2019-12-02 1800\""
  const MissingBy: string :=
    "Missing \"/by\". Format: \"deadline <desc> /by yyyy-MM-dd HHmm (e.g. 2019-12-02 1800)\""
  const BadDeadline: string :=
    "Bad deadline format. Use: \"deadline <desc> /by yyyy-MM-dd HHmm (e.g. 2019-12-02 1800)\""
  const EmptyDeadlineDescription: string := "Deadline description cannot be empty."
  const EmptyDeadlineTime: string := "Deadline time cannot be empty after /by."
  const InvalidDate: string := "Invalid date format. Use yyyy-MM-dd HHmm (e.g. 2019-12-02 1800)"
  const EventNeeds: string := "Locky.tasks.Event needs \"description /from start /to end\"."
  const MissingFrom: string := "Missing \"/from\". Format: \"event <desc> /from <start> /to <end>\""
  const MissingTo: string := "Missing \"/to\".   Format: \"event <desc> /from <start> /to <end>\""
  const BadEvent: string := "Bad event format. Use: \"event <desc> /from <start> /to <end>\""
  const EmptyEventDescription: string := "Locky.tasks.Event description cannot be empty."
  const EmptyEventStart: string := "Locky.tasks.Event start time cannot be empty after /from."
  const EmptyEventEnd: string := "Locky.tasks.Event end time cannot be empty after /to."
  const EventOrder: string := "Locky.tasks.Event end must be after start."
  const UnknownCommand: string := "Unknown command. Try: list | todo | deadline | event | mark | unmark | find"

  // ---------------------------------------------------------------- command line

  /** parseCommandLine(raw): the trimmed line is split once on a run of \s; the
      first token, lower-cased, is the command and the rest, trimmed, the args. */
  function ParseCommandLine(raw: string): (r: Result<ParsedCommand, Error>)
    ensures r.Err? <==> forall k :: 0 <= k < |raw| ==> IsTrimmable(raw[k])
    ensures r.Err? ==> r.error == Locky(SaySomething)
    ensures r.Ok? ==>
              var s, c := Trim(raw), r.value.command;
              && 0 < |c| <= |s|
              && c == ToLower(s[..|c|])
              && (forall k :: 0 <= k < |c| ==> !IsRegexSpace(s[k]))
              && (|c| < |s| ==> IsRegexSpace(s[|c|]))
              && r.value.args == Trim(s[SpaceEnd(s, |c|)..])
    ensures r.Ok? ==> Trim(r.value.args) == r.value.args
  {
    var s := Trim(raw);
    if s == "" then
      Err(Locky(SaySomething))
    else
      assert !IsRegexSpace(s[0]) by {
        if IsRegexSpace(s[0]) { RegexSpaceIsTrimmable(s[0]); }
      }
      var k := NextSpace(s, 0);
      var args := if k == |s| then "" else Trim(s[SpaceEnd(s, k)..]);
      Ok(ParsedCommand(ToLower(s[..k]), args))
  }

  /** ParserTest: a blank line asks for input. */
  lemma BlankLineAsksForInput()
    ensures ParseCommandLine("   ") == Err(Locky(SaySomething))
  {
  }

  /** ParserTest: only the outer whitespace of the arguments is trimmed. */
  lemma InnerSpacingIsKept()
    ensures ParseCommandLine("todo    buy   milk  ") == Ok(ParsedCommand("todo", "buy   milk"))
  {
    ExampleLineTrimmed();
    ExampleLineSplit();
    ExampleLineSlices();
    TodoIsLowerCase();
    CommandLineOf("todo    buy   milk  ", "todo    buy   milk", 4, 8, "todo", "buy   milk");
  }

  lemma ExampleLineSlices()
    ensures "todo    buy   milk"[..4] == "todo"
    ensures "todo    buy   milk"[8..] == "buy   milk"
  {
  }

  lemma TodoIsLowerCase()
    ensures ToLower("todo") == "todo"
  {
    var t := ToLower("todo");
    assert t[0] == 't' && t[1] == 'o' && t[2] == 'd' && t[3] == 'o';
  }

  /** The parse of a line whose trimmed form s has its first \s at k < |s|
      and its next non-\s at e. */
  lemma CommandLineOf(raw: string, s: string, k: nat, e: nat, command: string, args: string)
    requires Trim(raw) == s && s != ""
    requires k < |s| && NextSpace(s, 0) == k && SpaceEnd(s, k) == e
    requires ToLower(s[..k]) == command && Trim(s[e..]) == args
    ensures ParseCommandLine(raw) == Ok(ParsedCommand(command, args))
  {
  }

  lemma ExampleLineTrimmed()
    ensures Trim("todo    buy   milk  ") == "todo    buy   milk"
  {
    var raw := "todo    buy   milk  ";
    assert SkipTrimmable(raw, 0) == 0;
    assert DropTrailing(raw, 0, 18) == 18;
    assert DropTrailing(raw, 0, 19) == 18;
    assert DropTrailing(raw, 0, 20) == 18;
    assert raw[0..18] == "todo    buy   milk";
  }

  lemma ExampleLineSplit()
    ensures NextSpace("todo    buy   milk", 0) == 4
    ensures SpaceEnd("todo    buy   milk", 4) == 8
    ensures Trim("buy   milk") == "buy   milk"
  {
    var s := "todo    buy   milk";
    assert NextSpace(s, 4) == 4;
    assert NextSpace(s, 3) == 4;
    assert NextSpace(s, 2) == 4;
    assert NextSpace(s, 1) == 4;
    assert s[4] == s[5] == s[6] == s[7] == ' ' && s[8] == 'b';
    assert SpaceEnd(s, 8) == 8;
    assert SpaceEnd(s, 7) == 8;
    assert SpaceEnd(s, 6) == 8;
    assert SpaceEnd(s, 5) == 8;
    assert SpaceEnd(s, 4) == 8;
  }

  // ---------------------------------------------------------------- deadline

  /** parseDeadlineArgs(args). */
  function ParseDeadlineArgs(args: string, input: string -> Option<DateTime>): (r: Result<ParsedDeadline, Error>)
    ensures args == "" ==> r == Err(Locky(DeadlineNeeds))
    ensures r.Ok? ==> r.value.description != "" && Trim(r.value.description) == r.value.description
    ensures r.Ok? ==> DeadlineMatch(args).Some?
    ensures r.Ok? ==> input(Trim(args[DeadlineMatch(args).value.byStart..])) == Some(r.value.due)
    ensures args != "" && DeadlineMatch(args).None? ==>
              r == Err(Locky(MissingBy)) || r == Err(Locky(BadDeadline))
    // with a match: an empty description first, then an empty time, then a
    // time INPUT rejects
    ensures args != "" && DeadlineMatch(args).Some? ==>
              var g := DeadlineMatch(args).value;
              var desc, when := Trim(args[..g.descEnd]), Trim(args[g.byStart..]);
              && (desc == "" ==> r == Err(Locky(EmptyDeadlineDescription)))
              && (desc != "" && when == "" ==> r == Err(Locky(EmptyDeadlineTime)))
              && (desc != "" && when != "" ==>
                    (r.Ok? <==> input(when).Some?) && (r.Err? ==> r.error == Locky(InvalidDate)))
              && (r.Ok? ==> r.value.description == desc)
  {
    if args == "" then
      Err(Locky(DeadlineNeeds))
    else
      match DeadlineMatch(args)
      case None =>
        if !Contains(args, "/by") then Err(Locky(MissingBy)) else Err(Locky(BadDeadline))
      case Some(g) =>
        var desc := Trim(args[..g.descEnd]);
        var when := Trim(args[g.byStart..]);
        if desc == "" then
          Err(Locky(EmptyDeadlineDescription))
        else if when == "" then
          Err(Locky(EmptyDeadlineTime))
        else
          match input(when)
          case None => Err(Locky(InvalidDate))
          case Some(due) =>
            assert Trim(desc) == desc;
            Ok(ParsedDeadline(desc, due))
  }

  /** "Missing /by" is reported exactly when the args lack "/by"; a match
      always holds the marker. */
  lemma MissingByIffNoMarker(args: string, input: string -> Option<DateTime>)
    ensures ParseDeadlineArgs(args, input) == Err(Locky(MissingBy)) <==>
              args != "" && !Contains(args, "/by")
  {
    var g := DeadlineMatch(args);
    if g.Some? {
      var j := SpaceEnd(args, g.value.descEnd);
      assert OccursAt(args, "/by", j);
    }
  }

  /** Arguments that come trimmed from parseCommandLine never reach the two
      empty-field errors: group 1 starts with, and group 2 ends with, a
      character trim keeps. */
  lemma TrimmedDeadlineArgsHaveParts(args: string, input: string -> Option<DateTime>)
    requires Trim(args) == args
    ensures ParseDeadlineArgs(args, input) != Err(Locky(EmptyDeadlineDescription))
    ensures ParseDeadlineArgs(args, input) != Err(Locky(EmptyDeadlineTime))
  {
    var g := DeadlineMatch(args);
    if args != "" && g.Some? {
      TrimmedEnds(args);
      var desc := args[..g.value.descEnd];
      var when := args[g.value.byStart..];
      assert desc[0] == args[0];
      assert when[|when| - 1] == args[|args| - 1];
    }
  }

  /** A trimmed, non-empty string starts and ends with a character trim keeps. */
  lemma TrimmedEnds(s: string)
    requires Trim(s) == s && s != ""
    ensures !IsTrimmable(s[0]) && !IsTrimmable(s[|s| - 1])
  {
  }

  // ---------------------------------------------------------------- event

  /** parseEventArgs(args): the three parts, their emptiness checked in order,
      both dates read with INPUT, and the end strictly after the start. */
  function ParseEventArgs(args: string, input: string -> Option<DateTime>): (r: Result<ParsedEvent, Error>)
    ensures args == "" ==> r == Err(Locky(EventNeeds))
    ensures r.Ok? ==> Before(r.value.start, r.value.end)
    ensures r.Ok? ==> r.value.description != "" && Trim(r.value.description) == r.value.description
    ensures r.Ok? ==> EventMatch(args).Some?
    ensures r.Ok? ==>
              var g := EventMatch(args).value;
              && input(Trim(args[g.startBegin..g.startEnd])) == Some(r.value.start)
              && input(Trim(args[g.endBegin..])) == Some(r.value.end)
    ensures args != "" && EventMatch(args).None? ==>
              r == Err(Locky(MissingFrom)) || r == Err(Locky(MissingTo)) || r == Err(Locky(BadEvent))
    // with a match: the empty parts in the order description, start, end;
    // then a date INPUT rejects; then the order of the two dates
    ensures args != "" && EventMatch(args).Some? ==>
              var g := EventMatch(args).value;
              var desc, start, end :=
                Trim(args[..g.descEnd]), Trim(args[g.startBegin..g.startEnd]), Trim(args[g.endBegin..]);
              && (desc == "" ==> r == Err(Locky(EmptyEventDescription)))
              && (desc != "" && start == "" ==> r == Err(Locky(EmptyEventStart)))
              && (desc != "" && start != "" && end == "" ==> r == Err(Locky(EmptyEventEnd)))
              && (desc != "" && start != "" && end != "" ==>
                    && ((input(start).None? || input(end).None?) <==> r == Err(Locky(InvalidDate)))
                    && (input(start).Some? && input(end).Some? ==>
                          (r.Ok? <==> Before(input(start).value, input(end).value))))
              && (r.Ok? ==> r.value.description == desc)
  {
    if args == "" then
      Err(Locky(EventNeeds))
    else
      match EventMatch(args)
      case None =>
        if !Contains(args, "/from") then Err(Locky(MissingFrom))
        else if !Contains(args, "/to") then Err(Locky(MissingTo))
        else Err(Locky(BadEvent))
      case Some(g) =>
        var desc := Trim(args[..g.descEnd]);
        var start := Trim(args[g.startBegin..g.startEnd]);
        var end := Trim(args[g.endBegin..]);
        if desc == "" then
          Err(Locky(EmptyEventDescription))
        else if start == "" then
          Err(Locky(EmptyEventStart))
        else if end == "" then
          Err(Locky(EmptyEventEnd))
        else
          match input(start)
          case None => Err(Locky(InvalidDate))
          case Some(startDt) =>
            match input(end)
            case None => Err(Locky(InvalidDate))
            case Some(endDt) =>
              if !Before(startDt, endDt) then
                Err(Locky(EventOrder))
              else
                assert Trim(desc) == desc;
                Ok(ParsedEvent(desc, startDt, endDt))
  }

  /** On a mismatch a missing "/from" is reported, even when "/to" is missing
      too; "Missing /to" only when "/from" is there. */
  lemma MissingFromBeforeMissingTo(args: string, input: string -> Option<DateTime>)
    ensures ParseEventArgs(args, input) == Err(Locky(MissingFrom)) <==>
              args != "" && !Contains(args, "/from")
    ensures ParseEventArgs(args, input) == Err(Locky(MissingTo)) <==>
              args != "" && Contains(args, "/from") && !Contains(args, "/to")
  {
    var g := EventMatch(args);
    if g.Some? {
      var j := SpaceEnd(args, g.value.descEnd);
      assert OccursAt(args, "/from", j);
      var q := SpaceEnd(args, g.value.startEnd);
      assert OccursAt(args, "/to", q);
    }
  }

  /** Three non-empty parts whose dates INPUT reads, in the wrong order, give
      the ordering error and never an event. */
  lemma EventOrderIsChecked(args: string, input: string -> Option<DateTime>)
    requires EventMatch(args).Some?
    requires var g := EventMatch(args).value;
             && Trim(args[..g.descEnd]) != ""
             && Trim(args[g.startBegin..g.startEnd]) != ""
             && Trim(args[g.endBegin..]) != ""
             && input(Trim(args[g.startBegin..g.startEnd])).Some?
             && input(Trim(args[g.endBegin..])).Some?
             && !Before(input(Trim(args[g.startBegin..g.startEnd])).value, input(Trim(args[g.endBegin..])).value)
    ensures ParseEventArgs(args, input) == Err(Locky(EventOrder))
  {
    assert args != "";
  }

  /** With nothing but spaces between /from and /to, the greedy \s+ gives a
      space back to the lazy start group, so the match succeeds and the start
      is reported empty rather than the format bad. */
  lemma SpacesOnlyStartIsEmpty(input: string -> Option<DateTime>)
    ensures ParseEventArgs("d /from  /to x", input) == Err(Locky(EmptyEventStart))
  {
    ExampleEventMatch();
    ExampleEventSlices();
  }

  lemma ExampleEventSlices()
    ensures Trim("d /from  /to x"[..1]) == "d"
    ensures Trim("d /from  /to x"[8..9]) == ""
  {
    assert "d /from  /to x"[..1] == "d";
    assert "d /from  /to x"[8..9] == " ";
  }

  lemma ExampleEventSpaces()
    ensures var s := "d /from  /to x";
            && SpaceEnd(s, 14) == 14 && SpaceEnd(s, 13) == 13 && SpaceEnd(s, 12) == 13
            && SpaceEnd(s, 11) == 11 && SpaceEnd(s, 10) == 10 && SpaceEnd(s, 9) == 9
            && SpaceEnd(s, 8) == 9 && SpaceEnd(s, 7) == 9 && SpaceEnd(s, 1) == 2
  {
    var s := "d /from  /to x";
    assert SpaceEnd(s, 12) == 13;
    assert SpaceEnd(s, 8) == 9;
    assert SpaceEnd(s, 2) == 2;
  }

  lemma ExampleEventTail()
    ensures var s := "d /from  /to x";
            && TailAt(s, 14, "/to").None? && TailAt(s, 13, "/to").None?
            && TailAt(s, 11, "/to").None? && TailAt(s, 10, "/to").None?
            && TailAt(s, 9, "/to") == Some(13)
  {
    var s := "d /from  /to x";
    ExampleEventSpaces();
    assert s[13..] == "x";
  }

  lemma ExampleEventStart()
    ensures LazyStart("d /from  /to x", 8, 9) == Some((9, 13))
    ensures var s := "d /from  /to x"; NoTerminator(s[9..13]) && LazyStart(s, 9, 10).None?
  {
    var s := "d /from  /to x";
    ExampleEventSpaces();
    ExampleEventTail();
    assert LazyStart(s, 9, 14).None?;
    assert LazyStart(s, 9, 13).None?;
    assert LazyStart(s, 9, 12).None?;
    assert LazyStart(s, 9, 11).None?;
  }

  lemma ExampleEventMatch()
    ensures EventMatch("d /from  /to x") == Some(EventGroups(1, 8, 9, 13))
  {
    var s := "d /from  /to x";
    ExampleEventSpaces();
    ExampleEventStart();
    assert GreedyFrom(s, 8, 9) == Some((8, 9, 13));
    assert FromAt(s, 2) == Some((8, 9, 13));
  }

  // ---------------------------------------------------------------- dispatch

  /** The command words parse accepts. */
  predicate IsCommandWord(w: string) {
    w in {"list", "todo", "deadline", "event", "mark", "unmark", "delete", "find"}
  }

  /** The dispatch table of parse: the command a word names, holding args. */
  function CommandFor(word: string, args: string): (r: Option<Command>)
    ensures r.Some? <==> IsCommandWord(word)
    ensures r.Some? ==> CommandWord(r.value) == word
    ensures r.Some? && !r.value.ListCommand? ==> CommandArgument(r.value) == args
  {
    if word == "list" then Some(ListCommand)
    else if word == "todo" then Some(TodoCommand(args))
    else if word == "deadline" then Some(DeadlineCommand(args))
    else if word == "event" then Some(EventCommand(args))
    else if word == "mark" then Some(MarkCommand(args))
    else if word == "unmark" then Some(UnmarkCommand(args))
    else if word == "delete" then Some(DeleteCommand(args))
    else if word == "find" then Some(FindCommand(args))
    else None
  }

  /** parse(raw): the command for the first word, holding the args unread;
      any other word is an unknown command. */
  function Parse(raw: string): (r: Result<Command, Error>)
    ensures ParseCommandLine(raw).Err? ==> r == Err(ParseCommandLine(raw).error)
    ensures ParseCommandLine(raw).Ok? ==>
              var pc := ParseCommandLine(raw).value;
              && (r.Ok? <==> IsCommandWord(pc.command))
              && (r.Err? ==> r.error == Locky(UnknownCommand))
              && (r.Ok? ==> CommandWord(r.value) == pc.command)
              && (r.Ok? && !r.value.ListCommand? ==> CommandArgument(r.value) == pc.args)
  {
    var pc :- ParseCommandLine(raw);
    match CommandFor(pc.command, pc.args)
    case Some(c) => Ok(c)
    case None => Err(Locky(UnknownCommand))
  }

  /** The word that names a command. */
  function CommandWord(c: Command): string {
    match c
    case ListCommand => "list"
    case TodoCommand(_) => "todo"
    case DeadlineCommand(_) => "deadline"
    case EventCommand(_) => "event"
    case MarkCommand(_) => "mark"
    case UnmarkCommand(_) => "unmark"
    case DeleteCommand(_) => "delete"
    case FindCommand(_) => "find"
  }

  /** The argument string a command keeps. */
  function CommandArgument(c: Command): string
    requires !c.ListCommand?
  {
    match c
    case TodoCommand(d) => d
    case DeadlineCommand(a) => a
    case EventCommand(a) => a
    case MarkCommand(a) => a
    case UnmarkCommand(a) => a
    case DeleteCommand(a) => a
    case FindCommand(k) => k
  }

  /** "bye" is not a command of parse. */
  lemma ByeIsUnknown()
    ensures Parse("bye") == Err(Locky(UnknownCommand))
  {
    assert Trim("bye") == "bye";
    assert NextSpace("bye", 0) == 3;
  }
}
