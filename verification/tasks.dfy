/** The task record of popup/script.js and the pure list transformations the
    popup performs on the stored task list: renaming by id (a `map`),
    removing by id (a `filter`), toggling the first task with an id (a
    `find` followed by an in-place update), the running total (a `reduce`)
    and the clipboard report (a `map` followed by `join`). Timestamps are
    milliseconds; the clock is the explicit parameter `now`. */
module Tasks {
  import opened Wrappers
  import opened Text
  import opened Clock

  /** `startDate` and `endDate` are null or a timestamp; `elapsedTime`
      holds the milliseconds of every closed running interval. */
  datatype Task = Task(id: int, title: string, startDate: Option<nat>, endDate: Option<nat>, elapsedTime: int)

  /** The test `task.startDate && !task.endDate` the script uses for the
      pause icon, for starting a ticker, for toggling and for the total. */
  predicate IsRunning(t: Task) {
    t.startDate.Some? && t.endDate.None?
  }

  /** The time a task shows at `now`: its closed intervals plus the open
      one when it is running. */
  function LiveTime(t: Task, now: nat): int {
    if IsRunning(t) then t.elapsedTime + (now - t.startDate.value) else t.elapsedTime
  }

  /** A task as the add action creates it: the given id and title, never
      started, with no time on it. */
  function NewTask(id: int, title: string): (t: Task)
    ensures t.id == id && t.title == title
    ensures t.startDate == None && t.endDate == None
    ensures !IsRunning(t) && t.elapsedTime == 0
  {
    Task(id, title, None, None, 0)
  }

  /** The play/pause transition. A running task stops: its end is `now` and
      the open interval joins the elapsed time. A stopped task starts: its
      start is `now`, its end is cleared, its elapsed time is kept. */
  function Toggle(t: Task, now: nat): (r: Task)
    ensures r.id == t.id && r.title == t.title
    ensures IsRunning(r) <==> !IsRunning(t)
    ensures IsRunning(t) ==>
              (r.startDate == t.startDate && r.endDate == Some(now)
               && r.elapsedTime == t.elapsedTime + (now - t.startDate.value))
    ensures !IsRunning(t) ==>
              (r.startDate == Some(now) && r.endDate == None && r.elapsedTime == t.elapsedTime)
  {
    if IsRunning(t) then
      t.(endDate := Some(now), elapsedTime := t.elapsedTime + (now - t.startDate.value))
    else
      t.(startDate := Some(now), endDate := None)
  }

  /** Toggling does not make the shown time jump: at the instant of the
      toggle the task shows the same time before and after. */
  lemma ToggleKeepsLiveTime(t: Task, now: nat)
    ensures LiveTime(Toggle(t, now), now) == LiveTime(t, now)
  {
  }

  /** Start at `t1`, stop at `t2`: the task is stopped again and has gained
      exactly `t2 - t1` milliseconds, with the interval recorded. */
  lemma StartThenStop(t: Task, t1: nat, t2: nat)
    requires !IsRunning(t)
    ensures var u := Toggle(Toggle(t, t1), t2);
            && !IsRunning(u)
            && u.elapsedTime == t.elapsedTime + (t2 - t1)
            && u.startDate == Some(t1) && u.endDate == Some(t2)
            && u.id == t.id && u.title == t.title
  {
  }

  /** Tasks equal in every field but the title. */
  predicate SameButTitle(a: Task, b: Task) {
    a.id == b.id && a.startDate == b.startDate && a.endDate == b.endDate && a.elapsedTime == b.elapsedTime
  }

  /** The rename step of the add action: every task whose id is `id` gets
      the new title, every other field and every other task is kept, in
      the same order. */
  function Rename(tasks: seq<Task>, id: int, title: string): (r: seq<Task>)
    ensures |r| == |tasks|
    ensures forall i :: 0 <= i < |tasks| ==> SameButTitle(r[i], tasks[i])
    ensures forall i :: 0 <= i < |tasks| ==>
              r[i].title == (if tasks[i].id == id then title else tasks[i].title)
  {
    if tasks == [] then []
    else
      var head := if tasks[0].id == id then tasks[0].(title := title) else tasks[0];
      [head] + Rename(tasks[1..], id, title)
  }

  /** The number of tasks carrying `id`. */
  function CountId(tasks: seq<Task>, id: int): (n: nat)
    ensures n <= |tasks|
    ensures n == 0 <==> forall i :: 0 <= i < |tasks| ==> tasks[i].id != id
  {
    if tasks == [] then 0
    else (if tasks[0].id == id then 1 else 0) + CountId(tasks[1..], id)
  }

  /** The delete step: the tasks whose id is not `id`. A task survives
      exactly when it was there and has another id, and as many disappear
      as carried the id. */
  function Remove(tasks: seq<Task>, id: int): (r: seq<Task>)
    ensures forall i :: 0 <= i < |r| ==> r[i] in tasks && r[i].id != id
    ensures forall i :: 0 <= i < |tasks| && tasks[i].id != id ==> tasks[i] in r
    ensures |r| == |tasks| - CountId(tasks, id)
    ensures CountId(tasks, id) == 0 ==> r == tasks
  {
    if tasks == [] then []
    else if tasks[0].id == id then Remove(tasks[1..], id)
    else
      var r := [tasks[0]] + Remove(tasks[1..], id);
      assert CountId(tasks, id) == 0 ==> r == [tasks[0]] + tasks[1..] == tasks;
      r
  }

  /** Removing from a concatenation removes from each part and keeps the
      parts in order; with the one-task case this pins Remove down as an
      order-preserving filter. */
  lemma {:induction false} RemoveConcat(a: seq<Task>, b: seq<Task>, id: int)
    ensures Remove(a + b, id) == Remove(a, id) + Remove(b, id)
  {
    if a == [] {
      assert a + b == b;
    } else {
      var t, rest := a[0], a[1..];
      assert a == [t] + rest;
      assert a + b == [t] + (rest + b);
      var h := if t.id == id then [] else [t];
      var x, y := Remove(rest, id), Remove(b, id);
      calc {
        Remove(a + b, id);
        { RemoveCons(t, rest + b, id); }
        h + Remove(rest + b, id);
        { RemoveConcat(rest, b, id); }
        h + (x + y);
        (h + x) + y;
        { RemoveCons(t, rest, id); }
        Remove(a, id) + y;
      }
    }
  }

  lemma RemoveCons(t: Task, rest: seq<Task>, id: int)
    ensures Remove([t] + rest, id) == (if t.id == id then [] else [t]) + Remove(rest, id)
  {
    assert ([t] + rest)[1..] == rest;
  }

  lemma RemoveOne(t: Task, id: int)
    ensures Remove([t], id) == (if t.id == id then [] else [t])
  {
  }

  /** Deleting twice is deleting once. */
  lemma RemoveIdempotent(tasks: seq<Task>, id: int)
    ensures Remove(Remove(tasks, id), id) == Remove(tasks, id)
  {
  }

  /** `tasks.find(task => task.id === id)`, as an index: the first task
      carrying `id`, or None when no task does. */
  function FindFirst(tasks: seq<Task>, id: int): (r: Option<nat>)
    ensures r.Some? ==> r.value < |tasks| && tasks[r.value].id == id
    ensures r.Some? ==> forall j :: 0 <= j < r.value ==> tasks[j].id != id
    ensures r.None? <==> forall j :: 0 <= j < |tasks| ==> tasks[j].id != id
  {
    if tasks == [] then None
    else if tasks[0].id == id then Some(0)
    else match FindFirst(tasks[1..], id)
      case None => None
      case Some(k) => Some(k + 1)
  }

  /** The toggle step: the first task carrying `id` changes state, every
      other task (later ones with the same id included) is kept; when no
      task carries `id` the list is unchanged. */
  function ToggleFirst(tasks: seq<Task>, id: int, now: nat): (r: seq<Task>)
    ensures |r| == |tasks|
    ensures forall j :: 0 <= j < |tasks| && FindFirst(tasks, id) != Some(j) ==> r[j] == tasks[j]
    ensures FindFirst(tasks, id).Some? ==>
              var i := FindFirst(tasks, id).value;
              && r[i] == Toggle(tasks[i], now)
              && r[i].id == id && r[i].title == tasks[i].title && (IsRunning(r[i]) <==> !IsRunning(tasks[i]))
  {
    match FindFirst(tasks, id)
    case None => tasks
    case Some(i) => tasks[i := Toggle(tasks[i], now)]
  }

  /** Toggling keeps every id where it was, so the next toggle of the same
      id finds the same task. */
  lemma ToggleFirstKeepsFind(tasks: seq<Task>, id: int, now: nat)
    ensures FindFirst(ToggleFirst(tasks, id, now), id) == FindFirst(tasks, id)
  {
    var r := ToggleFirst(tasks, id, now);
    assert forall j :: 0 <= j < |tasks| ==> r[j].id == tasks[j].id;
    FindFirstSameIds(tasks, r, id);
  }

  lemma {:induction false} FindFirstSameIds(a: seq<Task>, b: seq<Task>, id: int)
    requires |a| == |b|
    requires forall j :: 0 <= j < |a| ==> a[j].id == b[j].id
    ensures FindFirst(a, id) == FindFirst(b, id)
  {
    if a != [] {
      FindFirstSameIds(a[1..], b[1..], id);
    }
  }

  /** Toggling the same id at `t1` and then at `t2`, starting from a
      stopped first match: the list is as before except that this task has
      gained exactly `t2 - t1` and is stopped again. */
  lemma ToggleFirstTwice(tasks: seq<Task>, id: int, t1: nat, t2: nat)
    requires FindFirst(tasks, id).Some?
    requires !IsRunning(tasks[FindFirst(tasks, id).value])
    ensures var i := FindFirst(tasks, id).value;
            var r := ToggleFirst(ToggleFirst(tasks, id, t1), id, t2);
            && |r| == |tasks|
            && (forall j :: 0 <= j < |tasks| && j != i ==> r[j] == tasks[j])
            && !IsRunning(r[i]) && r[i].elapsedTime == tasks[i].elapsedTime + (t2 - t1)
            && r[i].id == tasks[i].id && r[i].title == tasks[i].title
  {
    ToggleFirstKeepsFind(tasks, id, t1);
    StartThenStop(tasks[FindFirst(tasks, id).value], t1, t2);
  }

  /** `tasks.reduce((sum, task) => sum + shown time of task, 0)`: a left
      fold, adding one task at a time from the front of the list. The total
      at `now` is the elapsed time of every task plus, for each running
      task, the time since it started. */
  function Total(tasks: seq<Task>, now: nat): (total: int)
    ensures total == SumElapsed(tasks) + OpenTime(tasks, now)
    decreases |tasks|
  {
    if tasks == [] then 0
    else
      var front, last := tasks[..|tasks| - 1], tasks[|tasks| - 1];
      SumsSnoc(front, last, now);
      assert front + [last] == tasks;
      Total(front, now) + LiveTime(last, now)
  }

  /** Sum of the closed intervals of all tasks. */
  function SumElapsed(tasks: seq<Task>): int {
    if tasks == [] then 0 else tasks[0].elapsedTime + SumElapsed(tasks[1..])
  }

  /** Sum of `now - startDate` over the running tasks. */
  function OpenTime(tasks: seq<Task>, now: nat): int {
    if tasks == [] then 0
    else (if IsRunning(tasks[0]) then now - tasks[0].startDate.value else 0) + OpenTime(tasks[1..], now)
  }

  lemma {:induction false} SumsSnoc(tasks: seq<Task>, t: Task, now: nat)
    ensures SumElapsed(tasks + [t]) == SumElapsed(tasks) + t.elapsedTime
    ensures OpenTime(tasks + [t], now) == OpenTime(tasks, now) + (if IsRunning(t) then now - t.startDate.value else 0)
  {
    if tasks != [] {
      SumsSnoc(tasks[1..], t, now);
      assert (tasks + [t])[1..] == tasks[1..] + [t];
    }
  }

  /** With nothing running the total is exactly the sum of elapsed times. */
  lemma TotalWhenNothingRuns(tasks: seq<Task>, now: nat)
    requires forall i :: 0 <= i < |tasks| ==> !IsRunning(tasks[i])
    ensures Total(tasks, now) == SumElapsed(tasks)
  {
    NoOpenTime(tasks, now);
  }

  lemma {:induction false} NoOpenTime(tasks: seq<Task>, now: nat)
    requires forall i :: 0 <= i < |tasks| ==> !IsRunning(tasks[i])
    ensures OpenTime(tasks, now) == 0
  {
    if tasks != [] {
      NoOpenTime(tasks[1..], now);
    }
  }

  /** Replacing one task changes the total by the difference of the two
      tasks' shown times. */
  lemma {:induction false} TotalUpdate(tasks: seq<Task>, i: nat, t: Task, now: nat)
    requires i < |tasks|
    ensures Total(tasks[i := t], now) == Total(tasks, now) - LiveTime(tasks[i], now) + LiveTime(t, now)
    decreases |tasks|
  {
    var n := |tasks|;
    var u := tasks[i := t];
    if i == n - 1 {
      assert u[..n - 1] == tasks[..n - 1];
    } else {
      TotalUpdate(tasks[..n - 1], i, t, now);
      assert u[..n - 1] == tasks[..n - 1][i := t];
    }
  }

  /** The total at the instant of a toggle is the same before and after it. */
  lemma TotalAfterToggle(tasks: seq<Task>, id: int, now: nat)
    ensures Total(ToggleFirst(tasks, id, now), now) == Total(tasks, now)
  {
    match FindFirst(tasks, id)
    case None =>
    case Some(i) =>
      TotalUpdate(tasks, i, Toggle(tasks[i], now), now);
      ToggleKeepsLiveTime(tasks[i], now);
  }

  /** Renaming never changes the total. */
  lemma {:induction false} TotalAfterRename(tasks: seq<Task>, id: int, title: string, now: nat)
    ensures Total(Rename(tasks, id, title), now) == Total(tasks, now)
  {
    SumsSameButTitle(Rename(tasks, id, title), tasks, now);
  }

  lemma {:induction false} SumsSameButTitle(a: seq<Task>, b: seq<Task>, now: nat)
    requires |a| == |b|
    requires forall i :: 0 <= i < |a| ==> SameButTitle(a[i], b[i])
    ensures SumElapsed(a) == SumElapsed(b) && OpenTime(a, now) == OpenTime(b, now)
  {
    if a != [] {
      SumsSameButTitle(a[1..], b[1..], now);
    }
  }

  /** One report line, `"<title>, <HH:MM:SS>"`, of the stored elapsed time
      (the open interval of a running task is not included). The line is
      the title, then `", "`, then the clock, which reads back as the whole
      seconds of the elapsed time when that is not negative; a title
      without a newline gives a line without one. */
  function ReportLine(t: Task): (line: string)
    ensures |line| >= |t.title| + 2
    ensures line[..|t.title|] == t.title && line[|t.title|..|t.title| + 2] == ", "
    ensures line[|t.title| + 2..] == FormatTime(t.elapsedTime)
    ensures t.elapsedTime >= 0 ==>
              var c := ParseClock(line[|t.title| + 2..]);
              c.Some? && c.value.0 * 3600 + c.value.1 * 60 + c.value.2 == t.elapsedTime / 1000
    ensures '\n' !in t.title ==> '\n' !in line
  {
    var clock := FormatTime(t.elapsedTime);
    ThreeSlices(t.title, ", ", clock);
    NoNewlineInLine(t.title, clock);
    t.title + ", " + clock
  }

  lemma ThreeSlices(a: string, b: string, c: string)
    ensures var s := a + b + c;
            s[..|a|] == a && s[|a|..|a| + |b|] == b && s[|a| + |b|..] == c
  {
  }

  lemma NoNewlineInLine(title: string, clock: string)
    requires '\n' !in clock
    ensures '\n' !in title ==> '\n' !in title + ", " + clock
  {
    assert '\n' !in ", ";
  }

  /** The report line of every task, in list order. */
  function ReportLines(tasks: seq<Task>): seq<string> {
    seq(|tasks|, i requires 0 <= i < |tasks| => ReportLine(tasks[i]))
  }

  /** The clipboard text: the report lines joined with newlines. An empty
      list gives the empty string and one task gives its line alone.
      Otherwise the text has one line per task, in list order: splitting it
      at newlines gives the report lines back, provided no title holds a
      newline. */
  function Report(tasks: seq<Task>): (text: string)
    ensures tasks == [] ==> text == ""
    ensures |tasks| == 1 ==> text == ReportLine(tasks[0])
    ensures |tasks| >= 1 && (forall i :: 0 <= i < |tasks| ==> '\n' !in tasks[i].title) ==>
              Split(text, '\n') == ReportLines(tasks)
  {
    JoinedLinesSplit(tasks);
    Join(ReportLines(tasks), "\n")
  }

  lemma JoinedLinesSplit(tasks: seq<Task>)
    ensures |tasks| >= 1 && (forall i :: 0 <= i < |tasks| ==> '\n' !in tasks[i].title) ==>
              Split(Join(ReportLines(tasks), "\n"), '\n') == ReportLines(tasks)
  {
    if |tasks| >= 1 && (forall i :: 0 <= i < |tasks| ==> '\n' !in tasks[i].title) {
      var lines := ReportLines(tasks);
      forall i | 0 <= i < |lines|
        ensures '\n' !in lines[i]
      {
        assert lines[i] == ReportLine(tasks[i]);
      }
      SplitJoin(lines, '\n');
    }
  }
}
