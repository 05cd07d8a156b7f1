/** locky.tasks.TaskList: the ordered list of tasks, addressed from 1, saved to
    storage after every change. */
module TaskLists {
  import opened Errors
  import opened Text
  import opened Dates
  import opened Tasks
  import opened Storage

  /** The LockyException of getTask for an index outside 1..size. */
  function NoSuchTask(index1Based: int): Error {
    Locky("No such task: " + IntToString(index1Based))
  }

  // ---------------------------------------------------------------- list updates

  /** The list after the task at 0-based position k is marked. */
  function MarkedAt(ts: seq<Task>, k: nat): (r: seq<Task>)
    requires k < |ts|
    ensures |r| == |ts| && r[k].done
    ensures r[k].kind == ts[k].kind && r[k].description == ts[k].description
    ensures forall j :: 0 <= j < |ts| && j != k ==> r[j] == ts[j]
  {
    ts[k := SetDone(ts[k])]
  }

  /** The list after the task at 0-based position k is unmarked. */
  function UnmarkedAt(ts: seq<Task>, k: nat): (r: seq<Task>)
    requires k < |ts|
    ensures |r| == |ts| && !r[k].done
    ensures r[k].kind == ts[k].kind && r[k].description == ts[k].description
    ensures forall j :: 0 <= j < |ts| && j != k ==> r[j] == ts[j]
  {
    ts[k := SetUndone(ts[k])]
  }

  /** The list after ArrayList.remove(k): later tasks shift down by one. */
  function RemovedAt(ts: seq<Task>, k: nat): (r: seq<Task>)
    requires k < |ts|
    ensures |r| == |ts| - 1
    ensures forall j :: 0 <= j < k ==> r[j] == ts[j]
    ensures forall j :: k <= j < |r| ==> r[j] == ts[j + 1]
    ensures multiset(r) + multiset{ts[k]} == multiset(ts)
  {
    assert ts == ts[..k] + [ts[k]] + ts[k + 1..];
    ts[..k] + ts[k + 1..]
  }

  /** Marking the same task twice is marking it once; likewise unmarking. */
  lemma MarkIdempotent(ts: seq<Task>, k: nat)
    requires k < |ts|
    ensures MarkedAt(MarkedAt(ts, k), k) == MarkedAt(ts, k)
    ensures UnmarkedAt(UnmarkedAt(ts, k), k) == UnmarkedAt(ts, k)
  {
  }

  /** Unmarking undoes marking a task that was not done, and vice versa. */
  lemma UnmarkUndoesMark(ts: seq<Task>, k: nat)
    requires k < |ts|
    ensures !ts[k].done ==> UnmarkedAt(MarkedAt(ts, k), k) == ts
    ensures ts[k].done ==> MarkedAt(UnmarkedAt(ts, k), k) == ts
  {
  }

  /** Deleting the task just appended gives back the list before the append. */
  lemma RemoveLastUndoesAppend(ts: seq<Task>, t: Task)
    ensures RemovedAt(ts + [t], |ts|) == ts
  {
  }

  /** Every list update keeps the Event invariant of every task. */
  lemma UpdatesKeepWellFormed(ts: seq<Task>, k: nat)
    requires k < |ts|
    requires forall j :: 0 <= j < |ts| ==> WellFormed(ts[j])
    ensures forall j :: 0 <= j < |ts| ==> WellFormed(MarkedAt(ts, k)[j])
    ensures forall j :: 0 <= j < |ts| ==> WellFormed(UnmarkedAt(ts, k)[j])
    ensures forall j :: 0 <= j < |ts| - 1 ==> WellFormed(RemovedAt(ts, k)[j])
  {
    assert WellFormed(SetDone(ts[k])) && WellFormed(SetUndone(ts[k]));
  }

  // ---------------------------------------------------------------- printing

  /** One line of printList: "n. <task>\n". */
  function ListLine(n: int, t: Task, display: DateTime -> string): string {
    IntToString(n) + ". " + Render(t, display) + "\n"
  }

  /** What printList returns: task i (from 1) on line i. ListingPrefix and
      ListingShowsTask state what it contains. */
  function Listing(ts: seq<Task>, display: DateTime -> string): (s: string)
    ensures s == "" <==> ts == []
    decreases |ts|
  {
    if ts == [] then "" else Listing(ts[..|ts| - 1], display) + ListLine(|ts|, ts[|ts| - 1], display)
  }

  /** The listing of a prefix of the list is a prefix of the listing. */
  lemma {:induction false} ListingPrefix(ts: seq<Task>, i: nat, display: DateTime -> string)
    requires i <= |ts|
    ensures Listing(ts[..i], display) <= Listing(ts, display)
    decreases |ts| - i
  {
    if i < |ts| {
      var init := ts[..|ts| - 1];
      assert init[..i] == ts[..i];
      ListingPrefix(init, i, display);
    } else {
      assert ts[..i] == ts;
    }
  }

  /** Task i is shown, numbered i + 1, in the listing, right after the lines
      of the tasks before it. */
  lemma ListingShowsTask(ts: seq<Task>, i: nat, display: DateTime -> string)
    requires i < |ts|
    ensures OccursAt(Listing(ts, display), ListLine(i + 1, ts[i], display), |Listing(ts[..i], display)|)
  {
    ListingSnoc(ts, i, display);
    ListingPrefix(ts, i + 1, display);
    PrefixSlice(Listing(ts[..i], display), ListLine(i + 1, ts[i], display), Listing(ts, display));
  }

  lemma ListingSnoc(ts: seq<Task>, i: nat, display: DateTime -> string)
    requires i < |ts|
    ensures Listing(ts[..i + 1], display) == Listing(ts[..i], display) + ListLine(i + 1, ts[i], display)
  {
    var prefix := ts[..i + 1];
    assert prefix[..|prefix| - 1] == ts[..i] && prefix[|prefix| - 1] == ts[i];
  }

  lemma PrefixSlice(p: string, q: string, w: string)
    requires p + q <= w
    ensures OccursAt(w, q, |p|)
  {
    assert w[|p|..|p| + |q|] == (p + q)[|p|..];
  }

  // ---------------------------------------------------------------- searching

  /** The key find searches for: the keyword trimmed and lower-cased. */
  function SearchKey(keyword: string): string {
    ToLower(Trim(keyword))
  }

  /** The test of find: the lower-cased description contains the key. */
  predicate Matches(t: Task, key: string) {
    Contains(ToLower(t.description), key)
  }

  /** The tasks find returns: the matching ones, in list order. */
  function Matching(ts: seq<Task>, key: string): (r: seq<Task>)
    ensures |r| <= |ts|
    ensures forall j :: 0 <= j < |r| ==> r[j] in ts && Matches(r[j], key)
    decreases |ts|
  {
    if ts == [] then
      []
    else
      var rest := Matching(ts[..|ts| - 1], key);
      var last := ts[|ts| - 1];
      assert forall t :: t in ts[..|ts| - 1] ==> t in ts;
      if Matches(last, key) then rest + [last] else rest
  }

  /** No matching task is missed. */
  lemma {:induction false} MatchingComplete(ts: seq<Task>, key: string, i: nat)
    requires i < |ts| && Matches(ts[i], key)
    ensures ts[i] in Matching(ts, key)
    decreases |ts|
  {
    if i < |ts| - 1 {
      MatchingComplete(ts[..|ts| - 1], key, i);
    }
  }

  /** Searching a concatenation is concatenating the searches: the order of
      the list is kept. */
  lemma {:induction false} MatchingAppend(a: seq<Task>, b: seq<Task>, key: string)
    ensures Matching(a + b, key) == Matching(a, key) + Matching(b, key)
    decreases |b|
  {
    if b == [] {
      assert a + b == a;
    } else {
      var b' := b[..|b| - 1];
      assert (a + b)[..|a + b| - 1] == a + b';
      MatchingAppend(a, b', key);
    }
  }

  /** Searching the results again finds all of them. */
  lemma {:induction false} MatchingIdempotent(ts: seq<Task>, key: string)
    ensures Matching(Matching(ts, key), key) == Matching(ts, key)
    decreases |ts|
  {
    if ts != [] {
      var init := ts[..|ts| - 1];
      MatchingIdempotent(init, key);
      var last := ts[|ts| - 1];
      if Matches(last, key) {
        var m := Matching(init, key);
        MatchingAppend(m, [last], key);
        assert Matching([last], key) == Matching([], key) + [last];
      }
    }
  }

  /** A key of only trimmable characters matches every task. */
  lemma {:induction false} BlankKeyMatchesAll(ts: seq<Task>, keyword: string)
    requires forall k :: 0 <= k < |keyword| ==> IsTrimmable(keyword[k])
    ensures Matching(ts, SearchKey(keyword)) == ts
    decreases |ts|
  {
    assert SearchKey(keyword) == "";
    if ts != [] {
      BlankKeyMatchesAll(ts[..|ts| - 1], keyword);
      assert OccursAt(ToLower(ts[|ts| - 1].description), "", 0);
    }
  }

  /** formatFindResults: a header and the numbered matches, or a notice. */
  function FindResultsText(matches: seq<Task>, display: DateTime -> string): string {
    if matches == [] then "No matching tasks found.\n"
    else "Matching tasks:\n" + Listing(matches, display)
  }

  // ---------------------------------------------------------------- the class

  class TaskList {
    /** The tasks ArrayList. */
    var tasks: seq<Task>
    /** The lines of the storage file; None while the file does not exist. */
    var file: Option<seq<string>>
    /** The date formatters the storage and the rendering use. */
    const formats: Formats

    /** Every Event in the list has its end after its start. */
    ghost predicate Valid()
      reads this
    {
      forall j :: 0 <= j < |tasks| ==> WellFormed(tasks[j])
    }

    constructor (loaded: seq<Task>, file: Option<seq<string>>, formats: Formats)
      requires forall j :: 0 <= j < |loaded| ==> WellFormed(loaded[j])
      ensures Valid()
      ensures this.tasks == loaded && this.file == file && this.formats == formats
    {
      this.tasks := loaded;
      this.file := file;
      this.formats := formats;
    }

    /** new TaskList(storage): the tasks storage.load() reads. An
        IllegalArgumentException from load (an unreadable date, an Event out
        of order) is not caught and escapes the constructor. */
    static method Open(file: Option<seq<string>>, formats: Formats) returns (r: Result<TaskList, Error>)
      ensures file.None? ==> r.Ok? && r.value.tasks == []
      ensures file.Some? ==> (r.Ok? <==> Loaded(file.value, formats).Ok?)
      ensures file.Some? && r.Ok? ==> r.value.tasks == Loaded(file.value, formats).value
      ensures file.Some? && r.Err? ==> r.error == Loaded(file.value, formats).error
      ensures r.Ok? ==> fresh(r.value) && r.value.Valid()
      ensures r.Ok? ==> r.value.file == file && r.value.formats == formats
    {
      var loaded := Load(file, formats);
      if loaded.Err? {
        return Err(loaded.error);
      }
      var list := new TaskList(loaded.value, file, formats);
      return Ok(list);
    }

    /** getSize(). */
    function GetSize(): (n: nat)
      reads this
      ensures n == |tasks|
    {
      |tasks|
    }

    /** getTask(index1Based): the task at index1Based - 1, or "No such task". */
    function GetTask(index1Based: int): (r: Result<Task, Error>)
      reads this
      ensures r.Ok? <==> 1 <= index1Based <= |tasks|
      ensures r.Ok? ==> r.value == tasks[index1Based - 1]
      ensures r.Err? ==> r.error == NoSuchTask(index1Based)
    {
      if 1 <= index1Based <= |tasks| then Ok(tasks[index1Based - 1])
      else Err(NoSuchTask(index1Based))
    }

    /** isTaskDone(i), called by MarkCommand and UnmarkCommand: the done flag
        of getTask(i), so it fails on the same indices. */
    function IsTaskDone(index1Based: int): (r: Result<bool, Error>)
      reads this
      ensures r.Ok? <==> GetTask(index1Based).Ok?
      ensures r.Ok? ==> r.value == GetTask(index1Based).value.done
      ensures r.Err? ==> r.error == NoSuchTask(index1Based)
    {
      var t :- GetTask(index1Based);
      Ok(t.done)
    }

    /** isEmpty(), called by ListCommand. */
    function IsEmpty(): (r: bool)
      reads this
      ensures r <==> GetSize() == 0
    {
      tasks == []
    }

    /** printList() (getListString() in ListCommand): "n. <task>\n" for each
        task in order. */
    method PrintList() returns (s: string)
      ensures s == Listing(tasks, formats.display)
    {
      s := NumberedList(tasks);
    }

    /** find(keyword): the tasks whose lower-cased description contains the
        trimmed, lower-cased keyword, in list order. */
    method Find(keyword: string) returns (results: seq<Task>)
      ensures results == Matching(tasks, SearchKey(keyword))
    {
      var key := ToLower(Trim(keyword));
      results := [];
      for i := 0 to |tasks|
        invariant results == Matching(tasks[..i], key)
      {
        assert tasks[..i + 1][..i] == tasks[..i];
        var t := tasks[i];
        if Contains(ToLower(t.description), key) {
          results := results + [t];
        }
      }
      assert tasks[..|tasks|] == tasks;
    }

    /** formatFindResults(keyword), called by FindCommand. */
    method FormatFindResults(keyword: string) returns (s: string)
      ensures s == FindResultsText(Matching(tasks, SearchKey(keyword)), formats.display)
    {
      var matches := Find(keyword);
      if matches == [] {
        s := "No matching tasks found.\n";
      } else {
        var listing := NumberedList(matches);
        s := "Matching tasks:\n" + listing;
      }
    }

    /** The numbering loop of printList, over the given tasks. */
    method NumberedList(ts: seq<Task>) returns (s: string)
      ensures s == Listing(ts, formats.display)
    {
      s := "";
      for i := 0 to |ts|
        invariant s == Listing(ts[..i], formats.display)
      {
        assert ts[..i + 1][..i] == ts[..i];
        s := s + ListLine(i + 1, ts[i], formats.display);
      }
      assert ts[..|ts|] == ts;
    }

    /** save(): storage.save(tasks). writeOk says whether the write succeeds;
        when it does not, the IOException is the result and the file is left
        as it was. */
    method Persist(writeOk: bool) returns (r: Result<(), Error>)
      modifies this`file
      ensures writeOk ==> file == Some(SaveLines(tasks, formats.display)) && r == Ok(())
      ensures !writeOk ==> file == old(file) && r == Err(Io)
    {
      if writeOk {
        var lines := Save(tasks, formats.display);
        file := Some(lines);
        r := Ok(());
      } else {
        r := Err(Io);
      }
    }

    /** addTodo(desc): appends a not-done Todo, then saves. The task stays in
        the list even when the save fails. */
    method AddTodo(desc: string, writeOk: bool) returns (r: Result<(), Error>)
      requires Valid()
      modifies this
      ensures Valid()
      ensures tasks == old(tasks) + [NewTodo(desc, false)]
      ensures writeOk ==> file == Some(SaveLines(tasks, formats.display)) && r == Ok(())
      ensures !writeOk ==> file == old(file) && r == Err(Io)
    {
      tasks := tasks + [NewTodo(desc, false)];
      r := Persist(writeOk);
    }

    /** addDeadline(desc, deadline): appends a not-done Deadline, then saves. */
    method AddDeadline(desc: string, deadline: DateTime, writeOk: bool) returns (r: Result<(), Error>)
      requires Valid()
      modifies this
      ensures Valid()
      ensures tasks == old(tasks) + [NewDeadline(desc, false, deadline)]
      ensures writeOk ==> file == Some(SaveLines(tasks, formats.display)) && r == Ok(())
      ensures !writeOk ==> file == old(file) && r == Err(Io)
    {
      tasks := tasks + [NewDeadline(desc, false, deadline)];
      r := Persist(writeOk);
    }

    /** addEvent(desc, from, to): the Event constructor throws, before anything
        is added or saved, unless to is after from; otherwise the not-done
        Event is appended and the list saved. No overlap with other events is
        checked. */
    method AddEvent(desc: string, from: DateTime, to: DateTime, writeOk: bool)
      returns (r: Result<(), Error>)
      requires Valid()
      modifies this
      ensures Valid()
      ensures !Before(from, to) ==>
                r == Err(IllegalArgument(EventOrderMessage))
                && tasks == old(tasks) && file == old(file)
      ensures Before(from, to) ==>
                && tasks == old(tasks) + [Task(Event(from, to), desc, false)]
                && (writeOk ==> file == Some(SaveLines(tasks, formats.display)) && r == Ok(()))
                && (!writeOk ==> file == old(file) && r == Err(Io))
    {
      var event := NewEvent(desc, false, from, to);
      if event.Err? {
        return Err(event.error);
      }
      tasks := tasks + [event.value];
      r := Persist(writeOk);
    }

    /** mark(i): sets the done flag of task i, saves, and returns the task. An
        index outside 1..size fails in getTask before any change or save. */
    method Mark(index1Based: int, writeOk: bool) returns (r: Result<Task, Error>)
      requires Valid()
      modifies this
      ensures Valid()
      ensures !(1 <= index1Based <= |old(tasks)|) ==>
                r == Err(NoSuchTask(index1Based)) && unchanged(this)
      ensures 1 <= index1Based <= |old(tasks)| ==>
                && tasks == MarkedAt(old(tasks), index1Based - 1)
                && (writeOk ==> file == Some(SaveLines(tasks, formats.display))
                                && r == Ok(tasks[index1Based - 1]))
                && (!writeOk ==> file == old(file) && r == Err(Io))
    {
      var t :- GetTask(index1Based);
      UpdatesKeepWellFormed(tasks, index1Based - 1);
      tasks := MarkedAt(tasks, index1Based - 1);
      var saved := Persist(writeOk);
      if saved.Err? {
        return Err(saved.error);
      }
      return Ok(tasks[index1Based - 1]);
    }

    /** unmark(i): clears the done flag of task i, saves, and returns the task. */
    method Unmark(index1Based: int, writeOk: bool) returns (r: Result<Task, Error>)
      requires Valid()
      modifies this
      ensures Valid()
      ensures !(1 <= index1Based <= |old(tasks)|) ==>
                r == Err(NoSuchTask(index1Based)) && unchanged(this)
      ensures 1 <= index1Based <= |old(tasks)| ==>
                && tasks == UnmarkedAt(old(tasks), index1Based - 1)
                && (writeOk ==> file == Some(SaveLines(tasks, formats.display))
                                && r == Ok(tasks[index1Based - 1]))
                && (!writeOk ==> file == old(file) && r == Err(Io))
    {
      var t :- GetTask(index1Based);
      UpdatesKeepWellFormed(tasks, index1Based - 1);
      tasks := UnmarkedAt(tasks, index1Based - 1);
      var saved := Persist(writeOk);
      if saved.Err? {
        return Err(saved.error);
      }
      return Ok(tasks[index1Based - 1]);
    }

    /** delete(i): removes task i, saves, and returns the removed task. */
    method Delete(index1Based: int, writeOk: bool) returns (r: Result<Task, Error>)
      requires Valid()
      modifies this
      ensures Valid()
      ensures !(1 <= index1Based <= |old(tasks)|) ==>
                r == Err(NoSuchTask(index1Based)) && unchanged(this)
      ensures 1 <= index1Based <= |old(tasks)| ==>
                && tasks == RemovedAt(old(tasks), index1Based - 1)
                && (writeOk ==> file == Some(SaveLines(tasks, formats.display))
                                && r == Ok(old(tasks)[index1Based - 1]))
                && (!writeOk ==> file == old(file) && r == Err(Io))
    {
      var t :- GetTask(index1Based);
      UpdatesKeepWellFormed(tasks, index1Based - 1);
      tasks := RemovedAt(tasks, index1Based - 1);
      var saved := Persist(writeOk);
      if saved.Err? {
        return Err(saved.error);
      }
      return Ok(t);
    }
  }
}
