/** The popup's operations over its whole state. Storage is the value under
    the "tasks" key: None stands for an absent key or a value that is not an
    array. The title input field is part of the state because the add action
    reads it and clears it, and the edit action fills it. */
module Popup {
  import opened Wrappers
  import opened Text
  import opened Clock
  import opened Tasks

  datatype State = State(stored: Option<seq<Task>>, editingTaskId: Option<int>, input: string)

  /** Reading the stored list, with anything that is not a list read as the
      empty list. */
  function Load(stored: Option<seq<Task>>): seq<Task> {
    stored.GetOr([])
  }

  /** The add button. A blank input changes nothing at all. Otherwise the
      list is written back, the edit mode is left and the field is cleared;
      with no edit pending one stopped task with id `length + 1` and the
      input as typed (untrimmed) is appended, and with an edit pending the
      tasks carrying the edited id are renamed in place. */
  function AddOrUpdateTask(s: State): (r: State)
    ensures IsBlank(s.input) ==> r == s
    ensures !IsBlank(s.input) ==> r.stored.Some? && r.editingTaskId == None && r.input == ""
    ensures !IsBlank(s.input) && s.editingTaskId.None? ==>
              var before, after := Load(s.stored), r.stored.value;
              && |after| == |before| + 1
              && after[..|before|] == before
              && after[|before|].id == |before| + 1
              && after[|before|].title == s.input
              && after[|before|].startDate == None && after[|before|].endDate == None
              && after[|before|].elapsedTime == 0
              && !IsRunning(after[|before|])
    ensures !IsBlank(s.input) && s.editingTaskId.Some? ==>
              var before, after := Load(s.stored), r.stored.value;
              && |after| == |before|
              && (forall i :: 0 <= i < |before| ==> SameButTitle(after[i], before[i]))
              && (forall i :: 0 <= i < |before| && before[i].id == s.editingTaskId.value ==> after[i].title == s.input)
              && (forall i :: 0 <= i < |before| && before[i].id != s.editingTaskId.value ==> after[i] == before[i])
  {
    if IsBlank(s.input) then s
    else
      var tasks := Load(s.stored);
      match s.editingTaskId
      case Some(editing) => State(Some(Rename(tasks, editing, s.input)), None, "")
      case None =>
        var appended := tasks + [NewTask(|tasks| + 1, s.input)];
        assert appended[..|tasks|] == tasks;
        State(Some(appended), None, "")
  }

  /** The edit button: when the stored list has a task with `id`, the first
      such task's title goes into the field and `id` becomes the edit
      target; otherwise nothing changes. Storage is never written. */
  function EditTask(s: State, id: int): (r: State)
    ensures r.stored == s.stored
    ensures s.stored.Some? && FindFirst(s.stored.value, id).Some? ==>
              r.editingTaskId == Some(id) && r.input == s.stored.value[FindFirst(s.stored.value, id).value].title
    ensures s.stored.None? || FindFirst(s.stored.value, id).None? ==> r == s
  {
    match s.stored
    case None => s
    case Some(tasks) =>
      match FindFirst(tasks, id)
      case None => s
      case Some(i) => s.(input := tasks[i].title, editingTaskId := Some(id))
  }

  /** The play/pause button at time `now`: the first task with `id` changes
      state and nothing else changes; a missing id or a missing list leaves
      the state as it is. */
  function TogglePlay(s: State, id: int, now: nat): (r: State)
    ensures r.editingTaskId == s.editingTaskId && r.input == s.input
    ensures s.stored.None? || FindFirst(s.stored.value, id).None? ==> r == s
    ensures s.stored.Some? ==>
              var before := s.stored.value;
              && r.stored.Some? && |r.stored.value| == |before|
              && (forall j :: 0 <= j < |before| && FindFirst(before, id) != Some(j) ==> r.stored.value[j] == before[j])
              && (FindFirst(before, id).Some? ==>
                    r.stored.value[FindFirst(before, id).value] == Toggle(before[FindFirst(before, id).value], now))
  {
    match s.stored
    case None => s
    case Some(tasks) =>
      match FindFirst(tasks, id)
      case None => s
      case Some(_) => s.(stored := Some(ToggleFirst(tasks, id, now)))
  }

  /** The delete button: every task with `id` is removed and the others
      keep their order (the stored list becomes its Remove, pinned down by
      Tasks.Remove, Tasks.RemoveConcat and Tasks.RemoveOne); with no such
      task, or no stored list, the state is unchanged. */
  function DeleteTask(s: State, id: int): (r: State)
    ensures r.editingTaskId == s.editingTaskId && r.input == s.input
    ensures s.stored.None? ==> r == s
    ensures s.stored.Some? ==>
              && r.stored == Some(Remove(s.stored.value, id))
              && |r.stored.value| == |s.stored.value| - CountId(s.stored.value, id)
              && (forall i :: 0 <= i < |r.stored.value| ==> r.stored.value[i].id != id)
    ensures CountId(Load(s.stored), id) == 0 ==> r == s
  {
    match s.stored
    case None => s
    case Some(tasks) => s.(stored := Some(Remove(tasks, id)))
  }

  /** The header total at time `now`: the elapsed time of every task plus
      the open interval of every running task; no stored list totals 0. */
  function TotalTime(s: State, now: nat): (total: int)
    ensures total == SumElapsed(Load(s.stored)) + OpenTime(Load(s.stored), now)
    ensures s.stored.None? ==> total == 0
  {
    Total(Load(s.stored), now)
  }

  /** The copy button's text: the report of the stored list. It is empty
      when there is no list or it has no task, the single line of a lone
      task, and otherwise splits at newlines into one report line per task
      in list order, provided no title holds a newline. */
  function CopyReport(s: State): (text: string)
    ensures Load(s.stored) == [] ==> text == ""
    ensures |Load(s.stored)| == 1 ==> text == ReportLine(Load(s.stored)[0])
    ensures var tasks := Load(s.stored);
            |tasks| >= 1 && (forall i :: 0 <= i < |tasks| ==> '\n' !in tasks[i].title) ==>
              Split(text, '\n') == ReportLines(tasks)
  {
    Report(Load(s.stored))
  }

  /** Toggling does not make the header total jump. */
  lemma TotalTimeAfterToggle(s: State, id: int, now: nat)
    ensures TotalTime(TogglePlay(s, id, now), now) == TotalTime(s, now)
  {
    if s.stored.Some? {
      TotalAfterToggle(s.stored.value, id, now);
    }
  }

  /** Pressing play at `t1` and pause at `t2` on a stopped task leaves it
      stopped with exactly `t2 - t1` more elapsed time; every other task is
      as it was. */
  lemma PlayThenPause(s: State, id: int, t1: nat, t2: nat)
    requires s.stored.Some? && FindFirst(s.stored.value, id).Some?
    requires !IsRunning(s.stored.value[FindFirst(s.stored.value, id).value])
    ensures var before := s.stored.value;
            var i := FindFirst(before, id).value;
            var r := TogglePlay(TogglePlay(s, id, t1), id, t2);
            && r.stored.Some? && |r.stored.value| == |before|
            && (forall j :: 0 <= j < |before| && j != i ==> r.stored.value[j] == before[j])
            && !IsRunning(r.stored.value[i])
            && r.stored.value[i].elapsedTime == before[i].elapsedTime + (t2 - t1)
  {
    var tasks := s.stored.value;
    ToggleFirstKeepsFind(tasks, id, t1);
    ToggleFirstTwice(tasks, id, t1, t2);
  }

  /** Deleting the task just added gives the old list back, provided no
      older task already carried the new id. */
  lemma DeleteUndoesAdd(s: State)
    requires !IsBlank(s.input) && s.editingTaskId.None?
    requires CountId(Load(s.stored), |Load(s.stored)| + 1) == 0
    ensures DeleteTask(AddOrUpdateTask(s), |Load(s.stored)| + 1).stored == Some(Load(s.stored))
  {
    var tasks := Load(s.stored);
    var id := |tasks| + 1;
    var created := NewTask(id, s.input);
    var added := AddOrUpdateTask(s);
    assert added.stored == Some(tasks + [created]);
    assert Remove(tasks + [created], id) == tasks by {
      RemoveConcat(tasks, [created], id);
      RemoveOne(created, id);
      assert tasks + [] == tasks;
    }
  }

  /** An edit whose target has been deleted meanwhile renames nothing: the
      list is written back unchanged and the typed title is dropped. */
  lemma StaleEditDropsInput(s: State)
    requires !IsBlank(s.input) && s.editingTaskId.Some?
    requires CountId(Load(s.stored), s.editingTaskId.value) == 0
    ensures AddOrUpdateTask(s) == State(Some(Load(s.stored)), None, "")
  {
    var tasks := Load(s.stored);
    var after := AddOrUpdateTask(s).stored.value;
    assert after == tasks;
  }

  /** Editing a task and submitting the field without retyping leaves the
      list as it was, when no other task shares the id. */
  lemma EditThenSubmitKeepsList(s: State, id: int)
    requires s.stored.Some? && CountId(s.stored.value, id) == 1
    ensures AddOrUpdateTask(EditTask(s, id)).stored == s.stored
  {
    var tasks := s.stored.value;
    OnlyFirstCarriesId(tasks, id);
    var title := tasks[FindFirst(tasks, id).value].title;
    assert EditTask(s, id) == State(s.stored, Some(id), title);
    if !IsBlank(title) {
      RenameToSameTitle(tasks, id, title);
    }
  }

  /** Renaming to the title every task with the id already has changes nothing. */
  lemma {:induction false} RenameToSameTitle(tasks: seq<Task>, id: int, title: string)
    requires forall j :: 0 <= j < |tasks| && tasks[j].id == id ==> tasks[j].title == title
    ensures Rename(tasks, id, title) == tasks
  {
    if tasks != [] {
      RenameToSameTitle(tasks[1..], id, title);
      assert [tasks[0]] + tasks[1..] == tasks;
    }
  }

  /** When exactly one task carries `id`, it is the one FindFirst finds. */
  lemma {:induction false} OnlyFirstCarriesId(tasks: seq<Task>, id: int)
    requires CountId(tasks, id) == 1
    ensures FindFirst(tasks, id).Some?
    ensures forall j :: 0 <= j < |tasks| && tasks[j].id == id ==> FindFirst(tasks, id) == Some(j)
  {
    if tasks[0].id == id {
      assert CountId(tasks[1..], id) == 0;
    } else {
      OnlyFirstCarriesId(tasks[1..], id);
    }
  }

  /** Because new ids are `length + 1`, an id comes back after a delete:
      add "a" and "b", delete the first, add "c", and both tasks carry id 2.
      Toggling id 2 then only ever reaches "b". */
  lemma IdReusedAfterDelete(now: nat)
    ensures var s1 := AddOrUpdateTask(State(None, None, "a"));
            var s2 := AddOrUpdateTask(s1.(input := "b"));
            var s3 := DeleteTask(s2, 1);
            var s4 := AddOrUpdateTask(s3.(input := "c"));
            var tasks := Load(s4.stored);
            var toggled := Load(TogglePlay(s4, 2, now).stored);
            && |tasks| == 2 && tasks[0].id == 2 && tasks[1].id == 2
            && tasks[0].title == "b" && tasks[1].title == "c"
            && IsRunning(toggled[0]) && !IsRunning(toggled[1])
  {
    var a, b, c := Task(1, "a", None, None, 0), Task(2, "b", None, None, 0), Task(2, "c", None, None, 0);
    NotBlank("a");
    NotBlank("b");
    NotBlank("c");
    var s1 := AddOrUpdateTask(State(None, None, "a"));
    AddAppends(State(None, None, "a"));
    assert s1.stored == Some([a]);
    var s2 := AddOrUpdateTask(s1.(input := "b"));
    AddAppends(s1.(input := "b"));
    assert s2.stored == Some([a] + [b]);
    var s3 := DeleteTask(s2, 1);
    assert s3.stored == Some([b]) by {
      assert [a, b] == [a] + [b];
      RemoveConcat([a], [b], 1);
      RemoveOne(a, 1);
      RemoveOne(b, 1);
    }
    var s4 := AddOrUpdateTask(s3.(input := "c"));
    AddAppends(s3.(input := "c"));
    assert s4.stored == Some([b] + [c]);
    assert FindFirst([b, c], 2) == Some(0);
    assert ToggleFirst([b, c], 2, now) == [Toggle(b, now), c];
  }

  /** Add a task, press play at `t0` and pause two seconds later: one
      stopped task with 2000 ms, reported as `"<title>, 00:00:02"`. */
  lemma AddPlayPauseReport(title: string, t0: nat)
    requires !IsBlank(title)
    ensures var s1 := AddOrUpdateTask(State(None, None, title));
            var s3 := TogglePlay(TogglePlay(s1, 1, t0), 1, t0 + 2000);
            && Load(s3.stored) == [Task(1, title, Some(t0), Some(t0 + 2000), 2000)]
            && CopyReport(s3) == title + ", " + "00:00:02"
  {
    var s1 := AddOrUpdateTask(State(None, None, title));
    var stopped := Task(1, title, None, None, 0);
    assert s1.stored == Some([stopped]);
    var s2 := TogglePlay(s1, 1, t0);
    ToggleSingle(s1, stopped, t0);
    var running := Task(1, title, Some(t0), None, 0);
    assert s2.stored == Some([running]);
    var s3 := TogglePlay(s2, 1, t0 + 2000);
    ToggleSingle(s2, running, t0 + 2000);
    var done := Task(1, title, Some(t0), Some(t0 + 2000), 2000);
    assert s3.stored == Some([done]) by {
      assert Toggle(running, t0 + 2000) == done;
    }
    assert CopyReport(s3) == ReportLine(done);
    FormatTimeTwoSeconds();
  }

  lemma NotBlank(s: string)
    requires |s| > 0 && !IsJsWhitespace(s[0])
    ensures !IsBlank(s)
  {
    BlankIffAllWhitespace(s);
  }

  lemma AddAppends(s: State)
    requires !IsBlank(s.input) && s.editingTaskId.None?
    ensures AddOrUpdateTask(s).stored == Some(Load(s.stored) + [NewTask(|Load(s.stored)| + 1, s.input)])
  {
  }

  lemma ToggleSingle(s: State, t: Task, now: nat)
    requires s.stored == Some([t])
    ensures TogglePlay(s, t.id, now).stored == Some([Toggle(t, now)])
  {
    assert FindFirst([t], t.id) == Some(0);
    assert ToggleFirst([t], t.id, now) == [t][0 := Toggle(t, now)] == [Toggle(t, now)];
  }
}
