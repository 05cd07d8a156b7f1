/** locky.utils.Storage: the one-task-per-line file format. A record is
    "T|d|desc", "D|d|desc|by" or "E|d|desc|start|end", d being "1" for a done
    task and "0" otherwise, dates in DISPLAY format. The file itself is a
    sequence of lines; None stands for a file that does not exist. */
module Storage {
  import opened Errors
  import opened Text
  import opened Dates
  import opened Tasks

  // ---------------------------------------------------------------- writing

  function DoneField(done: bool): string {
    if done then "1" else "0"
  }

  /** The fields serialize joins with '|'. */
  function Fields(t: Task, display: DateTime -> string): (fs: seq<string>)
    ensures |fs| >= 3
  {
    match t.kind
    case Todo => ["T", DoneField(t.done), t.description]
    case Deadline(due) => ["D", DoneField(t.done), t.description, display(due)]
    case Event(start, end) => ["E", DoneField(t.done), t.description, display(start), display(end)]
  }

  /** Storage.serialize: the record is tagged with the kind, then the flag.
      What the whole record means is stated by ParseLineOfSerialize. */
  function Serialize(t: Task, display: DateTime -> string): (line: string)
    ensures |line| >= 4 && line[1] == '|' && line[3] == '|'
    ensures line[0] == (match t.kind case Todo => 'T' case Deadline(_) => 'D' case Event(_, _) => 'E')
    ensures line[2] == '1' <==> t.done
  {
    var fs := Fields(t, display);
    assert Join(fs, '|') == fs[0] + "|" + fs[1] + "|" + Join(fs[2..], '|');
    Join(fs, '|')
  }

  /** The lines Storage.save writes, one per task in list order. */
  function SaveLines(ts: seq<Task>, display: DateTime -> string): (lines: seq<string>)
    ensures |lines| == |ts|
    ensures forall i :: 0 <= i < |ts| ==> lines[i] == Serialize(ts[i], display)
  {
    seq(|ts|, i requires 0 <= i < |ts| => Serialize(ts[i], display))
  }

  /** Storage.save: writes every task, in order, overwriting the file. */
  method Save(ts: seq<Task>, display: DateTime -> string) returns (lines: seq<string>)
    ensures lines == SaveLines(ts, display)
  {
    lines := [];
    for i := 0 to |ts|
      invariant lines == SaveLines(ts[..i], display)
    {
      lines := lines + [Serialize(ts[i], display)];
    }
    assert ts[..|ts|] == ts;
  }

  // ---------------------------------------------------------------- dates

  /** The formatters parseDateFlexible tries, in order: INPUT, ISO, DISPLAY. */
  function AcceptedFormats(f: Formats): seq<string -> Option<DateTime>> {
    [f.input, f.iso, f.displayParse]
  }

  /** The first formatter that accepts raw decides the value. */
  function FirstParse(ps: seq<string -> Option<DateTime>>, raw: string): (r: Option<DateTime>)
    ensures r.None? <==> forall k :: 0 <= k < |ps| ==> ps[k](raw).None?
    ensures r.Some? ==> exists k :: 0 <= k < |ps| && ps[k](raw) == r
                                    && forall j :: 0 <= j < k ==> ps[j](raw).None?
    decreases |ps|
  {
    if ps == [] then
      None
    else if ps[0](raw).Some? then
      ps[0](raw)
    else
      var r := FirstParse(ps[1..], raw);
      assert forall k :: 1 <= k < |ps| ==> ps[k] == ps[1..][k - 1];
      assert r.Some? ==> exists k :: 0 <= k < |ps| && ps[k](raw) == r
                                     && forall j :: 0 <= j < k ==> ps[j](raw).None? by {
        if r.Some? {
          var k :| 0 <= k < |ps| - 1 && ps[1..][k](raw) == r
                   && forall j :: 0 <= j < k ==> ps[1..][j](raw).None?;
          assert ps[k + 1](raw) == r;
        }
      }
      r
  }

  /** The formatters after the first that accepts raw are not consulted. */
  lemma {:induction false} FirstParseAt(ps: seq<string -> Option<DateTime>>, raw: string, i: nat)
    requires i < |ps| && ps[i](raw).Some?
    requires forall k :: 0 <= k < i ==> ps[k](raw).None?
    ensures FirstParse(ps, raw) == ps[i](raw)
    decreases i
  {
    if i > 0 {
      FirstParseAt(ps[1..], raw, i - 1);
    }
  }

  /** INPUT is tried first, then ISO, then DISPLAY. */
  lemma FirstParseOfAccepted(raw: string, f: Formats)
    ensures f.input(raw).Some? ==> FirstParse(AcceptedFormats(f), raw) == f.input(raw)
    ensures f.input(raw).None? && f.iso(raw).Some? ==>
              FirstParse(AcceptedFormats(f), raw) == f.iso(raw)
    ensures f.input(raw).None? && f.iso(raw).None? ==>
              FirstParse(AcceptedFormats(f), raw) == f.displayParse(raw)
  {
    var ps := AcceptedFormats(f);
    if ps[0](raw).Some? {
      FirstParseAt(ps, raw, 0);
    } else if ps[1](raw).Some? {
      FirstParseAt(ps, raw, 1);
    } else if ps[2](raw).Some? {
      FirstParseAt(ps, raw, 2);
    }
  }

  function UnrecognizedDate(raw: string, f: Formats): string {
    "Unrecognized datetime: \"" + raw + "\". Expected formats like \"" + f.inputPattern
      + "\" or ISO-8601."
  }

  /** What parseDateFlexible returns or throws. */
  function FlexibleDate(raw: string, f: Formats): (r: Result<DateTime, Error>)
    ensures r.Err? ==> r.error == IllegalArgument(UnrecognizedDate(raw, f))
    ensures r.Err? <==> f.input(raw).None? && f.iso(raw).None? && f.displayParse(raw).None?
    ensures f.input(raw).Some? ==> r == Ok(f.input(raw).value)
    ensures f.input(raw).None? && f.iso(raw).Some? ==> r == Ok(f.iso(raw).value)
    ensures f.input(raw).None? && f.iso(raw).None? && f.displayParse(raw).Some? ==>
              r == Ok(f.displayParse(raw).value)
  {
    FirstParseOfAccepted(raw, f);
    match FirstParse(AcceptedFormats(f), raw)
    case Some(d) => Ok(d)
    case None => Err(IllegalArgument(UnrecognizedDate(raw, f)))
  }

  /** Storage.parseDateFlexible: tries each accepted formatter in turn and
      returns the first success; throws when all three fail. */
  method ParseDateFlexible(raw: string, f: Formats) returns (r: Result<DateTime, Error>)
    ensures r == FlexibleDate(raw, f)
  {
    var formats := AcceptedFormats(f);
    for i := 0 to |formats|
      invariant forall k :: 0 <= k < i ==> formats[k](raw).None?
    {
      var parsed := formats[i](raw);
      if parsed.Some? {
        FirstParseAt(formats, raw, i);
        return Ok(parsed.value);
      }
    }
    return Err(IllegalArgument(UnrecognizedDate(raw, f)));
  }

  /** parseDateFlexible reads back what DISPLAY writes. */
  lemma FlexibleDateOfDisplay(t: DateTime, f: Formats)
    requires Lawful(f) && OnTheMinute(t)
    ensures FlexibleDate(f.display(t), f) == Ok(t)
  {
  }

  // ---------------------------------------------------------------- reading

  /** Storage.parseLine: Ok(None) is the null it returns for a short record or
      an unknown tag; Err is the IllegalArgumentException of an unreadable date
      (or of an Event whose end is not after its start). */
  function ParseLine(line: string, f: Formats): (r: Result<Option<Task>, Error>)
    ensures |JavaSplit(line, '|')| < 3 ==> r == Ok(None)
    ensures r.Ok? && r.value.Some? ==> WellFormed(r.value.value)
    ensures r.Ok? && r.value.Some? ==>
              var p := JavaSplit(line, '|');
              && r.value.value.description == p[2]
              && (r.value.value.done <==> p[1] == "1")
              && KindTag(r.value.value.kind) == "[" + p[0] + "]"
    ensures var p := JavaSplit(line, '|');
            |p| >= 3 && p[0] != "T" && p[0] != "D" && p[0] != "E" ==> r == Ok(None)
    ensures var p := JavaSplit(line, '|');
            |p| >= 3 && p[0] == "T" ==> r.Ok? && r.value.Some?
    ensures var p := JavaSplit(line, '|');
            |p| >= 3 && p[0] == "D" ==>
              && (r == Ok(None) <==> |p| < 4)
              && (|p| >= 4 ==> (r.Err? <==> FlexibleDate(p[3], f).Err?))
              && (r.Ok? && r.value.Some? ==> r.value.value.kind == Deadline(FlexibleDate(p[3], f).value))
    // the date fields are read in order, p[3] first, and the first unreadable one is thrown
    ensures var p := JavaSplit(line, '|');
            && ((|p| >= 4 && p[0] == "D") || (|p| >= 5 && p[0] == "E"))
            && FlexibleDate(p[3], f).Err? ==>
              r == Err(FlexibleDate(p[3], f).error)
    ensures var p := JavaSplit(line, '|');
            |p| >= 5 && p[0] == "E" && FlexibleDate(p[3], f).Ok? && FlexibleDate(p[4], f).Err? ==>
              r == Err(FlexibleDate(p[4], f).error)
    // an E record throws on an unreadable date, or when its end is not after its start
    ensures var p := JavaSplit(line, '|');
            |p| >= 3 && p[0] == "E" ==>
              && (r == Ok(None) <==> |p| < 5)
              && (|p| >= 5 ==>
                    (r.Err? <==> || FlexibleDate(p[3], f).Err? || FlexibleDate(p[4], f).Err?
                                 || !Before(FlexibleDate(p[3], f).value, FlexibleDate(p[4], f).value)))
              && (|p| >= 5 && FlexibleDate(p[3], f).Ok? && FlexibleDate(p[4], f).Ok? ==>
                    var start, end := FlexibleDate(p[3], f).value, FlexibleDate(p[4], f).value;
                    && (!Before(start, end) ==> r == Err(IllegalArgument(EventOrderMessage)))
                    && (r.Ok? ==> r.value.value.kind == Event(start, end)))
  {
    var p := JavaSplit(line, '|');
    if |p| < 3 then
      Ok(None)
    else
      var done := p[1] == "1";
      var desc := p[2];
      if p[0] == "T" then
        Ok(Some(NewTodo(desc, done)))
      else if p[0] == "D" then
        if |p| < 4 then
          Ok(None)
        else
          var due :- FlexibleDate(p[3], f);
          Ok(Some(NewDeadline(desc, done, due)))
      else if p[0] == "E" then
        if |p| < 5 then
          Ok(None)
        else
          var start :- FlexibleDate(p[3], f);
          var end :- FlexibleDate(p[4], f);
          var event :- NewEvent(desc, done, start, end);
          Ok(Some(event))
      else
        Ok(None)
  }

  /** The outcome of loading the given lines: the parsed tasks in file order,
      null records skipped, the first exception aborting the whole load. */
  function Loaded(lines: seq<string>, f: Formats): (r: Result<seq<Task>, Error>)
    ensures r.Ok? ==> |r.value| <= |lines|
    ensures r.Ok? ==> forall i :: 0 <= i < |r.value| ==> WellFormed(r.value[i])
    decreases |lines|
  {
    if lines == [] then
      Ok([])
    else
      var ts :- Loaded(lines[..|lines| - 1], f);
      var t :- ParseLine(lines[|lines| - 1], f);
      match t
      case None => Ok(ts)
      case Some(task) => Ok(ts + [task])
  }

  /** Loading one more line: its task is appended, a null is skipped, an
      exception (or an earlier one) ends the load. */
  lemma LoadedSnoc(lines: seq<string>, line: string, f: Formats)
    ensures Loaded(lines + [line], f) ==
              match Loaded(lines, f)
              case Err(e) => Err(e)
              case Ok(ts) =>
                match ParseLine(line, f)
                case Err(e) => Err(e)
                case Ok(None) => Ok(ts)
                case Ok(Some(t)) => Ok(ts + [t])
  {
    assert (lines + [line])[..|lines|] == lines;
  }

  /** Once a line throws, the lines after it do not change the outcome. */
  lemma {:induction false} LoadedKeepsFirstError(lines: seq<string>, i: nat, f: Formats)
    requires i <= |lines| && Loaded(lines[..i], f).Err?
    ensures Loaded(lines, f) == Loaded(lines[..i], f)
    decreases |lines|
  {
    if i < |lines| {
      assert lines[..|lines| - 1][..i] == lines[..i];
      LoadedKeepsFirstError(lines[..|lines| - 1], i, f);
    } else {
      assert lines[..i] == lines;
    }
  }

  /** One line of the load: a parse error ends the whole load with that error;
      otherwise the parsed task, if any, is appended. */
  lemma LoadStep(lines: seq<string>, i: nat, f: Formats, list: seq<Task>, t: Result<Option<Task>, Error>)
    requires i < |lines| && Loaded(lines[..i], f) == Ok(list) && t == ParseLine(lines[i], f)
    ensures t.Err? ==> Loaded(lines, f) == Err(t.error)
    ensures t.Ok? ==> Loaded(lines[..i + 1], f) == Ok(if t.value.Some? then list + [t.value.value] else list)
  {
    var prefix := lines[..i];
    assert lines[..i + 1] == prefix + [lines[i]];
    LoadedSnoc(prefix, lines[i], f);
    if t.Err? {
      LoadedKeepsFirstError(lines, i + 1, f);
    }
  }

  /** Storage.load: a missing file is an empty list; otherwise every line is
      parsed in order, non-null results are kept, and an exception propagates. */
  method Load(file: Option<seq<string>>, f: Formats) returns (r: Result<seq<Task>, Error>)
    ensures file.None? ==> r == Ok([])
    ensures file.Some? ==> r == Loaded(file.value, f)
  {
    if file.None? {
      return Ok([]);
    }
    var lines := file.value;
    var list: seq<Task> := [];
    for i := 0 to |lines|
      invariant Loaded(lines[..i], f) == Ok(list)
    {
      var t := ParseLine(lines[i], f);
      LoadStep(lines, i, f, list, t);
      if t.Err? {
        return Err(t.error);
      }
      if t.value.Some? {
        list := list + [t.value.value];
      }
    }
    assert lines[..|lines|] == lines;
    return Ok(list);
  }

  // ---------------------------------------------------------------- round trip

  /** A task whose record reads back as itself: its description holds no '|',
      a Todo's description is not empty (the record would end in an empty
      field, which split drops), and its dates are on the minute (DISPLAY
      writes no seconds). */
  predicate Storable(t: Task) {
    && WellFormed(t)
    && '|' !in t.description
    && (t.kind.Todo? ==> t.description != "")
    && (t.kind.Deadline? ==> OnTheMinute(t.kind.due))
    && (t.kind.Event? ==> OnTheMinute(t.kind.start) && OnTheMinute(t.kind.end))
  }

  /** parseLine(serialize(t)) reconstructs t. */
  lemma ParseLineOfSerialize(t: Task, f: Formats)
    requires Lawful(f) && Storable(t)
    ensures ParseLine(Serialize(t, f.display), f) == Ok(Some(t))
  {
    var fs := Fields(t, f.display);
    SerializedFields(t, f);
    RecordFields(Serialize(t, f.display), fs, f);
    match t.kind
    case Todo =>
    case Deadline(due) =>
      FlexibleDateOfDisplay(due, f);
    case Event(start, end) =>
      FlexibleDateOfDisplay(start, f);
      FlexibleDateOfDisplay(end, f);
  }

  /** split undoes serialize's join for a storable task. */
  lemma SerializedFields(t: Task, f: Formats)
    requires Lawful(f) && Storable(t)
    ensures JavaSplit(Serialize(t, f.display), '|') == Fields(t, f.display)
  {
    var fs := Fields(t, f.display);
    assert forall i :: 0 <= i < |fs| ==> '|' !in fs[i];
    JavaSplitOfJoin(fs, '|');
  }

  /** parseLine on a line that splits into the fields of a readable record. */
  lemma RecordFields(line: string, p: seq<string>, f: Formats)
    requires JavaSplit(line, '|') == p && |p| >= 3
    ensures p[0] == "T" ==> ParseLine(line, f) == Ok(Some(NewTodo(p[2], p[1] == "1")))
    ensures p[0] == "D" && |p| >= 4 && FlexibleDate(p[3], f).Ok? ==>
              ParseLine(line, f) == Ok(Some(NewDeadline(p[2], p[1] == "1", FlexibleDate(p[3], f).value)))
    ensures p[0] == "E" && |p| >= 5 && FlexibleDate(p[3], f).Ok? && FlexibleDate(p[4], f).Ok? ==>
              var e := NewEvent(p[2], p[1] == "1", FlexibleDate(p[3], f).value, FlexibleDate(p[4], f).value);
              e.Ok? ==> ParseLine(line, f) == Ok(Some(e.value))
  {
  }

  /** Loading what save wrote gives back the same list. */
  lemma {:induction false} LoadOfSave(ts: seq<Task>, f: Formats)
    requires Lawful(f)
    requires forall i :: 0 <= i < |ts| ==> Storable(ts[i])
    ensures Loaded(SaveLines(ts, f.display), f) == Ok(ts)
    decreases |ts|
  {
    if ts != [] {
      var init, last := ts[..|ts| - 1], ts[|ts| - 1];
      assert ts == init + [last];
      LoadOfSave(init, f);
      ParseLineOfSerialize(last, f);
      LoadOfSaveStep(init, last, ts, f);
    }
  }

  /** The step of LoadOfSave: one more saved task that reads back as itself. */
  lemma LoadOfSaveStep(init: seq<Task>, last: Task, ts: seq<Task>, f: Formats)
    requires ts == init + [last]
    requires Loaded(SaveLines(init, f.display), f) == Ok(init)
    requires ParseLine(Serialize(last, f.display), f) == Ok(Some(last))
    ensures Loaded(SaveLines(ts, f.display), f) == Ok(ts)
  {
    assert SaveLines(ts, f.display) == SaveLines(init, f.display) + [Serialize(last, f.display)];
    LoadedSnoc(SaveLines(init, f.display), Serialize(last, f.display), f);
  }

  /** save, load, save writes the same file as the first save. */
  lemma SaveLoadSave(ts: seq<Task>, f: Formats)
    requires Lawful(f)
    requires forall i :: 0 <= i < |ts| ==> Storable(ts[i])
    ensures Loaded(SaveLines(ts, f.display), f).Ok?
    ensures SaveLines(Loaded(SaveLines(ts, f.display), f).value, f.display) == SaveLines(ts, f.display)
  {
    LoadOfSave(ts, f);
  }

  /** The format does not escape '|': a Todo "a|b" comes back as the Todo "a". */
  lemma PipeInDescriptionIsLost(f: Formats)
    ensures ParseLine(Serialize(Task(Todo, "a|b", false), f.display), f) == Ok(Some(Task(Todo, "a", false)))
  {
    var t := Task(Todo, "a|b", false);
    assert Fields(t, f.display) == ["T", "0", "a|b"];
    assert Join(["T", "0", "a|b"], '|') == Join(["T", "0", "a", "b"], '|');
    JavaSplitOfJoin(["T", "0", "a", "b"], '|');
  }

  /** StorageTest's "T|1": two fields, so no task. */
  lemma ShortTodoRecordIsSkipped(f: Formats)
    ensures ParseLine("T|1", f) == Ok(None)
  {
    assert "T|1" == Join(["T", "1"], '|');
    SkippedRecord(["T", "1"], f);
  }

  /** A record with an unknown tag is skipped. */
  lemma UnknownTagIsSkipped(f: Formats)
    ensures ParseLine("X|1|whatever", f) == Ok(None)
  {
    assert "X|1|whatever" == Join(["X", "1", "whatever"], '|');
    SkippedRecord(["X", "1", "whatever"], f);
  }

  /** A record with fewer than three fields, a D record with fewer than four,
      an E record with fewer than five, or a record with an unknown tag is
      skipped. */
  lemma SkippedRecord(fs: seq<string>, f: Formats)
    requires 2 <= |fs| && fs[|fs| - 1] != ""
    requires forall i :: 0 <= i < |fs| ==> '|' !in fs[i]
    requires |fs| < 3 || (fs[0] == "D" && |fs| < 4) || (fs[0] == "E" && |fs| < 5)
             || (fs[0] != "T" && fs[0] != "D" && fs[0] != "E")
    ensures ParseLine(Join(fs, '|'), f) == Ok(None)
  {
    JavaSplitOfJoin(fs, '|');
    SkippedFields(Join(fs, '|'), fs, f);
  }

  /** parseLine on a line that splits into fields too few for their tag, or
      with an unknown tag. */
  lemma SkippedFields(line: string, p: seq<string>, f: Formats)
    requires JavaSplit(line, '|') == p
    requires |p| < 3 || (p[0] == "D" && |p| < 4) || (p[0] == "E" && |p| < 5)
             || (p[0] != "T" && p[0] != "D" && p[0] != "E")
    ensures ParseLine(line, f) == Ok(None)
  {
  }

  /** A trailing empty field is dropped: "T|1|" has no description. */
  lemma TrailingEmptyFieldIsDropped(f: Formats)
    ensures ParseLine("T|1|", f) == Ok(None)
  {
    assert "T|1|" == Join(["T", "1", ""], '|');
    SplitOfJoin(["T", "1", ""], '|');
    assert "T|1|"[1] == '|';
  }
}
