/**
 The screen put together: the list the root screen owns, and the local state
 of the row mounted for each task, keyed by task id. A row's callbacks reach
 the root screen's handlers; the rows of removed tasks are unmounted.
 */
module Screen {
  import opened Tasks
  import Home
  import TaskItem

  datatype ScreenState = ScreenState(tasks: seq<Task>, rows: map<int, TaskItem.RowState>)

  /** What the user does: submit a new title (the clock reads `now`), or act
      on the row of task `id`, with `choice` as the answer to the removal
      dialog should the action open it. */
  datatype UserEvent =
    | SubmitNewTask(title: string, now: int)
    | OnRow(id: int, event: TaskItem.RowEvent, choice: Choice)

  /** The screen as first shown: no tasks, no rows. */
  function Initial(): ScreenState {
    ScreenState([], map[])
  }

  /** The first task carrying `id`, if any. */
  function TaskWithId(tasks: seq<Task>, id: int): (r: Option<Task>)
    ensures r.None? <==> !HasId(tasks, id)
    ensures r.Some? ==> exists j :: 0 <= j < |tasks| && tasks[j] == r.value && r.value.id == id
  {
    if tasks == [] then None
    else if tasks[0].id == id then Some(tasks[0])
    else
      var r := TaskWithId(tasks[1..], id);
      assert HasId(tasks, id) ==> HasId(tasks[1..], id) by {
        if HasId(tasks, id) {
          var i :| 0 <= i < |tasks| && tasks[i].id == id;
          assert tasks[1..][i - 1].id == id;
        }
      }
      assert r.Some? ==> exists j :: 0 <= j < |tasks| && tasks[j] == r.value by {
        if r.Some? {
          var j :| 0 <= j < |tasks[1..]| && tasks[1..][j] == r.value;
          assert tasks[j + 1] == r.value;
        }
      }
      r
  }

  /** Keeps the rows whose task is still in `tasks`. */
  function Prune(rows: map<int, TaskItem.RowState>, tasks: seq<Task>): (r: map<int, TaskItem.RowState>)
    ensures r.Keys == rows.Keys * Ids(tasks)
    ensures forall k :: k in r ==> r[k] == rows[k]
  {
    map k | k in rows && k in Ids(tasks) :: rows[k]
  }

  /** One user event on the whole screen. */
  function Step(sc: ScreenState, ev: UserEvent): (r: ScreenState)
    ensures ev.SubmitNewTask? ==> r.tasks == Home.AddTask(sc.tasks, ev.title, ev.now).tasks
    ensures ev.OnRow? && !HasId(sc.tasks, ev.id) ==> r == sc
    ensures ev.OnRow? && HasId(sc.tasks, ev.id) && ev.event.PressRow? ==>
              r.tasks == Home.ToggleTaskDone(sc.tasks, ev.id)
    ensures ev.OnRow? && HasId(sc.tasks, ev.id) && ev.event.PressTrash? ==>
              r.tasks == Home.RemoveTask(sc.tasks, ev.id, ev.choice)
    ensures ev.OnRow? && HasId(sc.tasks, ev.id) && ev.event.SubmitEditing?
            && ev.id in sc.rows && sc.rows[ev.id].isEditingText ==>
              r.tasks == Home.EditTask(sc.tasks, ev.id, sc.rows[ev.id].editedTask)
  {
    match ev
    case SubmitNewTask(title, now) =>
      var added := Home.AddTask(sc.tasks, title, now);
      if added.duplicateWarning then sc
      else ScreenState(added.tasks, sc.rows[now := TaskItem.Mount(Task(now, title, false))])
    case OnRow(id, e, choice) =>
      match TaskWithId(sc.tasks, id)
      case None => sc
      case Some(task) => OnTaskRow(sc, task, e, choice)
  }

  /** An event on the row showing `task`: the row handles it, the screen
      carries out the callback it invoked, and rows of vanished tasks go. */
  function OnTaskRow(sc: ScreenState, task: Task, e: TaskItem.RowEvent, choice: Choice): ScreenState {
    var row := if task.id in sc.rows then sc.rows[task.id] else TaskItem.Mount(task);
    var step := TaskItem.Handle(task, row, e);
    var tasks := match step.emitted
                 case None => sc.tasks
                 case Some(a) => Home.Apply(sc.tasks, a, choice);
    ScreenState(tasks, Prune(sc.rows[task.id := step.state], tasks))
  }

  /** The screen is in order: ids are distinct, there is exactly one row per
      task, and every row that is not being edited shows its task's title. */
  ghost predicate Consistent(sc: ScreenState) {
    && DistinctIds(sc.tasks)
    && sc.rows.Keys == Ids(sc.tasks)
    && forall i :: 0 <= i < |sc.tasks| ==>
         sc.tasks[i].id in sc.rows && TaskItem.ShowsTitle(sc.tasks[i], sc.rows[sc.tasks[i].id])
  }

  // ---------------------------------------------------------------------
  // Helper facts about ids
  // ---------------------------------------------------------------------

  /** Two lists whose ids agree position by position have the same id set and
      the same distinctness. */
  lemma SameIds(a: seq<Task>, b: seq<Task>)
    requires |a| == |b|
    requires forall i :: 0 <= i < |a| ==> a[i].id == b[i].id
    ensures Ids(a) == Ids(b)
    ensures DistinctIds(a) ==> DistinctIds(b)
  {
  }

  /** Under distinct ids, two positions carrying one id are the same position. */
  lemma SamePosition(tasks: seq<Task>, i: int, j: int)
    requires DistinctIds(tasks)
    requires 0 <= i < |tasks| && 0 <= j < |tasks|
    requires tasks[i].id == tasks[j].id
    ensures i == j
  {
  }

  /** Under distinct ids there are as many ids as tasks. */
  lemma {:induction false} DistinctIdsCount(tasks: seq<Task>)
    requires DistinctIds(tasks)
    ensures |Ids(tasks)| == |tasks|
  {
    if tasks != [] {
      var rest := tasks[1..];
      assert DistinctIds(rest) by {
        forall i, j | 0 <= i < j < |rest| ensures rest[i].id != rest[j].id {
          assert rest[i] == tasks[i + 1] && rest[j] == tasks[j + 1];
        }
      }
      DistinctIdsCount(rest);
      assert Ids(tasks) == {tasks[0].id} + Ids(rest) by {
        forall k | k in Ids(tasks) ensures k in {tasks[0].id} + Ids(rest) {
          var i :| 0 <= i < |tasks| && tasks[i].id == k;
          if i > 0 { assert rest[i - 1].id == k; }
        }
        forall k | k in Ids(rest) ensures k in Ids(tasks) {
          var i :| 0 <= i < |rest| && rest[i].id == k;
          assert tasks[i + 1].id == k;
        }
      }
      assert tasks[0].id !in Ids(rest) by {
        forall i | 0 <= i < |rest| ensures rest[i].id != tasks[0].id {
          assert rest[i] == tasks[i + 1];
        }
      }
    }
  }

  // ---------------------------------------------------------------------
  // The invariant
  // ---------------------------------------------------------------------

  lemma InitialConsistent()
    ensures Consistent(Initial())
  {
  }

  /** Adding a task with a clock reading no task carries keeps the screen in order. */
  lemma AddKeepsConsistent(sc: ScreenState, title: string, now: int)
    requires Consistent(sc)
    requires now !in Ids(sc.tasks)
    ensures Consistent(Step(sc, SubmitNewTask(title, now)))
    ensures !HasTitle(sc.tasks, title) ==>
              Step(sc, SubmitNewTask(title, now)).rows[now] == TaskItem.Mount(Task(now, title, false))
  {
    var added := Home.AddTask(sc.tasks, title, now);
    if !added.duplicateWarning {
      var r := Step(sc, SubmitNewTask(title, now));
      var n := |sc.tasks|;
      assert forall i :: 0 <= i < n ==> r.tasks[i] == sc.tasks[i] by {
        forall i | 0 <= i < n ensures r.tasks[i] == sc.tasks[i] {
          assert r.tasks[i] == r.tasks[..n][i];
        }
      }
      forall i, j | 0 <= i < j < |r.tasks| ensures r.tasks[i].id != r.tasks[j].id {
        if j == n {
          assert sc.tasks[i].id in Ids(sc.tasks);
        }
      }
      assert Ids(r.tasks) == Ids(sc.tasks) + {now} by {
        forall k | k in Ids(r.tasks) ensures k in Ids(sc.tasks) + {now} {
          var i :| 0 <= i < |r.tasks| && r.tasks[i].id == k;
          if i < n { assert sc.tasks[i].id == k; }
        }
        forall k | k in Ids(sc.tasks) ensures k in Ids(r.tasks) {
          var i :| 0 <= i < n && sc.tasks[i].id == k;
          assert r.tasks[i].id == k;
        }
        assert r.tasks[n].id == now;
      }
      forall i | 0 <= i < |r.tasks|
        ensures r.tasks[i].id in r.rows && TaskItem.ShowsTitle(r.tasks[i], r.rows[r.tasks[i].id])
      {
        if i < n {
          assert sc.tasks[i].id in Ids(sc.tasks);
        }
      }
    }
  }

  /** The general shape of a row event: the list becomes `tasks'`, whose ids
      are distinct and already present, tasks that keep an id other than `id`
      keep their title, the tasks carrying `id` are shown by `st`; the row of
      `id` becomes `st` and the rows of vanished tasks are unmounted. */
  lemma {:induction false} UpdateKeepsConsistent(sc: ScreenState, id: int, st: TaskItem.RowState, tasks': seq<Task>)
    requires Consistent(sc)
    requires id in Ids(sc.tasks)
    requires DistinctIds(tasks')
    requires Ids(tasks') <= Ids(sc.tasks)
    requires forall i, j :: 0 <= i < |tasks'| && 0 <= j < |sc.tasks| && tasks'[i].id == sc.tasks[j].id
               && tasks'[i].id != id
               ==> tasks'[i].title == sc.tasks[j].title
    requires forall i :: 0 <= i < |tasks'| && tasks'[i].id == id ==> TaskItem.ShowsTitle(tasks'[i], st)
    ensures Consistent(ScreenState(tasks', Prune(sc.rows[id := st], tasks')))
  {
    var rows := Prune(sc.rows[id := st], tasks');
    assert rows.Keys == Ids(tasks');
    forall i | 0 <= i < |tasks'|
      ensures tasks'[i].id in rows && TaskItem.ShowsTitle(tasks'[i], rows[tasks'[i].id])
    {
      var k := tasks'[i].id;
      assert k in Ids(tasks');
      if k != id {
        var j :| 0 <= j < |sc.tasks| && sc.tasks[j].id == k;
        assert TaskItem.ShowsTitle(sc.tasks[j], sc.rows[k]);
      }
    }
  }

  /** A row event that invokes no callback. */
  lemma {:induction false} SilentEventKeepsConsistent(sc: ScreenState, p: int, st: TaskItem.RowState)
    requires Consistent(sc)
    requires 0 <= p < |sc.tasks|
    requires TaskItem.ShowsTitle(sc.tasks[p], st)
    ensures Consistent(ScreenState(sc.tasks, Prune(sc.rows[sc.tasks[p].id := st], sc.tasks)))
  {
    var id := sc.tasks[p].id;
    assert id in Ids(sc.tasks);
    forall i | 0 <= i < |sc.tasks| && sc.tasks[i].id == id ensures TaskItem.ShowsTitle(sc.tasks[i], st) {
      SamePosition(sc.tasks, i, p);
    }
    UpdateKeepsConsistent(sc, id, st, sc.tasks);
  }

  /** A toggle request from the row of `sc.tasks[p]`, whose state is unchanged. */
  lemma {:induction false} ToggleKeepsConsistent(sc: ScreenState, p: int)
    requires Consistent(sc)
    requires 0 <= p < |sc.tasks|
    ensures var id := sc.tasks[p].id;
            var tasks' := Home.ToggleTaskDone(sc.tasks, id);
            Consistent(ScreenState(tasks', Prune(sc.rows[id := sc.rows[id]], tasks')))
  {
    var id := sc.tasks[p].id;
    var tasks' := Home.ToggleTaskDone(sc.tasks, id);
    assert id in Ids(sc.tasks);
    SameIds(sc.tasks, tasks');
    forall i | 0 <= i < |tasks'| && tasks'[i].id == id ensures TaskItem.ShowsTitle(tasks'[i], sc.rows[id]) {
      SamePosition(sc.tasks, i, p);
    }
    forall i, j | 0 <= i < |tasks'| && 0 <= j < |sc.tasks| && tasks'[i].id == sc.tasks[j].id
      ensures tasks'[i].title == sc.tasks[j].title
    {
      SamePosition(sc.tasks, i, j);
    }
    UpdateKeepsConsistent(sc, id, sc.rows[id], tasks');
  }

  /** An edit request from the row of `sc.tasks[p]`, which stops editing and
      keeps its draft. */
  lemma {:induction false} EditKeepsConsistent(sc: ScreenState, p: int, draft: string)
    requires Consistent(sc)
    requires 0 <= p < |sc.tasks|
    ensures var id := sc.tasks[p].id;
            var st := TaskItem.RowState(false, draft);
            var tasks' := Home.EditTask(sc.tasks, id, draft);
            Consistent(ScreenState(tasks', Prune(sc.rows[id := st], tasks')))
  {
    var id := sc.tasks[p].id;
    var tasks' := Home.EditTask(sc.tasks, id, draft);
    assert id in Ids(sc.tasks);
    SameIds(sc.tasks, tasks');
    forall i, j | 0 <= i < |tasks'| && 0 <= j < |sc.tasks| && tasks'[i].id == sc.tasks[j].id
                  && tasks'[i].id != id
      ensures tasks'[i].title == sc.tasks[j].title
    {
      SamePosition(sc.tasks, i, j);
    }
    UpdateKeepsConsistent(sc, id, TaskItem.RowState(false, draft), tasks');
  }

  /** A removal request from the row of `sc.tasks[p]`, answered with `choice`. */
  lemma {:induction false} RemoveKeepsConsistent(sc: ScreenState, p: int, choice: Choice)
    requires Consistent(sc)
    requires 0 <= p < |sc.tasks|
    ensures var id := sc.tasks[p].id;
            var tasks' := Home.RemoveTask(sc.tasks, id, choice);
            Consistent(ScreenState(tasks', Prune(sc.rows[id := sc.rows[id]], tasks')))
  {
    var id := sc.tasks[p].id;
    assert id in Ids(sc.tasks);
    if choice == Yes {
      ConfirmedRemovalKeepsConsistent(sc, id, Home.Without(sc.tasks, id));
    } else {
      forall i | 0 <= i < |sc.tasks| && sc.tasks[i].id == id ensures TaskItem.ShowsTitle(sc.tasks[i], sc.rows[id]) {
        SamePosition(sc.tasks, i, p);
      }
      UpdateKeepsConsistent(sc, id, sc.rows[id], sc.tasks);
    }
  }

  /** A confirmed removal: `tasks'` holds exactly the tasks whose id is not `id`. */
  lemma {:induction false} ConfirmedRemovalKeepsConsistent(sc: ScreenState, id: int, tasks': seq<Task>)
    requires Consistent(sc)
    requires id in Ids(sc.tasks)
    requires forall t :: t in tasks' <==> t in sc.tasks && t.id != id
    requires DistinctIds(tasks')
    ensures Consistent(ScreenState(tasks', Prune(sc.rows[id := sc.rows[id]], tasks')))
  {
    forall i | 0 <= i < |tasks'| ensures tasks'[i] in sc.tasks && tasks'[i].id != id {
      assert tasks'[i] in tasks';
    }
    forall k | k in Ids(tasks') ensures k in Ids(sc.tasks) {
      var i :| 0 <= i < |tasks'| && tasks'[i].id == k;
      var j :| 0 <= j < |sc.tasks| && sc.tasks[j] == tasks'[i];
    }
    forall i, j | 0 <= i < |tasks'| && 0 <= j < |sc.tasks| && tasks'[i].id == sc.tasks[j].id
      ensures tasks'[i].title == sc.tasks[j].title
    {
      var j' :| 0 <= j' < |sc.tasks| && sc.tasks[j'] == tasks'[i];
      SamePosition(sc.tasks, j, j');
    }
    UpdateKeepsConsistent(sc, id, sc.rows[id], tasks');
  }

  /** Acting on a row keeps the screen in order. */
  lemma RowEventKeepsConsistent(sc: ScreenState, id: int, e: TaskItem.RowEvent, choice: Choice)
    requires Consistent(sc)
    ensures Consistent(Step(sc, OnRow(id, e, choice)))
  {
    var found := TaskWithId(sc.tasks, id);
    if found.Some? {
      var p :| 0 <= p < |sc.tasks| && sc.tasks[p] == found.value;
      TaskRowKeepsConsistent(sc, p, e, choice);
    }
  }

  /** An event on the row of `sc.tasks[p]` keeps the screen in order. */
  lemma TaskRowKeepsConsistent(sc: ScreenState, p: int, e: TaskItem.RowEvent, choice: Choice)
    requires Consistent(sc)
    requires 0 <= p < |sc.tasks|
    ensures Consistent(OnTaskRow(sc, sc.tasks[p], e, choice))
  {
    var task := sc.tasks[p];
    var id := task.id;
    assert id in Ids(sc.tasks);
    var row := sc.rows[id];
    var step := TaskItem.Handle(task, row, e);
    var r := OnTaskRow(sc, task, e, choice);
    match step.emitted
    case None =>
      assert r == ScreenState(sc.tasks, Prune(sc.rows[id := step.state], sc.tasks));
      TaskItem.EventsKeepTitleShown(task, row, e);
      SilentEventKeepsConsistent(sc, p, step.state);
    case Some(a) =>
      assert a.id == id && step.state.isEditingText == (row.isEditingText && !a.Edit?);
      match a
      case Toggle(_) =>
        assert step.state == row;
        assert r == ScreenState(Home.ToggleTaskDone(sc.tasks, id),
                                Prune(sc.rows[id := row], Home.ToggleTaskDone(sc.tasks, id)));
        ToggleKeepsConsistent(sc, p);
      case Edit(_, draft) =>
        assert step.state == TaskItem.RowState(false, draft);
        assert r == ScreenState(Home.EditTask(sc.tasks, id, draft),
                                Prune(sc.rows[id := step.state], Home.EditTask(sc.tasks, id, draft)));
        EditKeepsConsistent(sc, p, draft);
      case Remove(_) =>
        assert step.state == row;
        assert r == ScreenState(Home.RemoveTask(sc.tasks, id, choice),
                                Prune(sc.rows[id := row], Home.RemoveTask(sc.tasks, id, choice)));
        RemoveKeepsConsistent(sc, p, choice);
  }

  /** Every event keeps the screen in order, provided a new task gets a clock
      reading that no task carries yet. */
  lemma StepKeepsConsistent(sc: ScreenState, ev: UserEvent)
    requires Consistent(sc)
    requires ev.SubmitNewTask? ==> ev.now !in Ids(sc.tasks)
    ensures Consistent(Step(sc, ev))
  {
    match ev
    case SubmitNewTask(title, now) => AddKeepsConsistent(sc, title, now);
    case OnRow(id, e, choice) => RowEventKeepsConsistent(sc, id, e, choice);
  }

  /** In a consistent screen the header counter equals the number of rows. */
  lemma CounterMatchesRows(sc: ScreenState)
    requires Consistent(sc)
    ensures Home.TasksCounter(sc.tasks) == |sc.rows|
  {
    DistinctIdsCount(sc.tasks);
    assert |sc.rows| == |sc.rows.Keys|;
  }

  /** Submitting an edit stores the draft as the task's title and returns the
      row to viewing mode, showing that title. */
  lemma SubmitCommitsDraft(sc: ScreenState, id: int, choice: Choice)
    requires Consistent(sc)
    requires id in sc.rows
    requires sc.rows[id].isEditingText
    ensures var r := Step(sc, OnRow(id, TaskItem.SubmitEditing, choice));
            && |r.tasks| == |sc.tasks|
            && (forall i :: 0 <= i < |r.tasks| ==>
                  r.tasks[i] == if sc.tasks[i].id == id
                                then sc.tasks[i].(title := sc.rows[id].editedTask)
                                else sc.tasks[i])
            && r.rows[id] == TaskItem.RowState(false, sc.rows[id].editedTask)
  {
  }

  /** Cancelling an edit never touches the list. */
  lemma CancelLeavesTasks(sc: ScreenState, id: int, choice: Choice)
    ensures Step(sc, OnRow(id, TaskItem.CancelEditing, choice)).tasks == sc.tasks
  {
  }
}
