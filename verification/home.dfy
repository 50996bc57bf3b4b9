/**
 The root screen: it owns the ordered list of tasks and is the only place
 that changes it. Every handler returns the list that replaces the old one.
 */
module Home {
  import opened Tasks

  /** The first task whose title is exactly `title`, if any. */
  function FindByTitle(tasks: seq<Task>, title: string): (r: Option<Task>)
    ensures r.None? <==> !HasTitle(tasks, title)
    ensures r.Some? ==> exists i :: 0 <= i < |tasks| && tasks[i] == r.value
                          && r.value.title == title
                          && forall j :: 0 <= j < i ==> tasks[j].title != title
  {
    if tasks == [] then None
    else if tasks[0].title == title then Some(tasks[0])
    else
      var r := FindByTitle(tasks[1..], title);
      assert HasTitle(tasks, title) ==> HasTitle(tasks[1..], title) by {
        if HasTitle(tasks, title) {
          var i :| 0 <= i < |tasks| && tasks[i].title == title;
          assert tasks[1..][i - 1].title == title;
        }
      }
      assert r.Some? ==> HasTitle(tasks, title) by {
        if r.Some? {
          var i :| 0 <= i < |tasks[1..]| && tasks[1..][i] == r.value && r.value.title == title
                   && forall j :: 0 <= j < i ==> tasks[1..][j].title != title;
          assert tasks[i + 1] == r.value;
          assert forall j :: 0 <= j < i + 1 ==> tasks[j].title != title by {
            forall j | 0 <= j < i + 1 ensures tasks[j].title != title {
              if j > 0 { assert tasks[j] == tasks[1..][j - 1]; }
            }
          }
        }
      }
      r
  }

  /** What an add request leaves behind: the new list and whether the
      "task already registered" warning was shown. */
  datatype AddOutcome = AddOutcome(tasks: seq<Task>, duplicateWarning: bool)

  /** Adds a task titled `newTaskTitle` with id `now` (the clock reading),
      unless some task already has that exact title. */
  function AddTask(tasks: seq<Task>, newTaskTitle: string, now: int): (r: AddOutcome)
    ensures r.duplicateWarning <==> HasTitle(tasks, newTaskTitle)
    ensures r.duplicateWarning ==> r.tasks == tasks
    ensures !r.duplicateWarning ==>
              && |r.tasks| == |tasks| + 1
              && r.tasks[..|tasks|] == tasks
              && r.tasks[|tasks|] == Task(now, newTaskTitle, false)
  {
    match FindByTitle(tasks, newTaskTitle)
    case Some(_) => AddOutcome(tasks, true)
    case None => AddOutcome(tasks + [Task(now, newTaskTitle, false)], false)
  }

  /** Replaces every task carrying `id` by `update` of it; the rest stay as they are. */
  function UpdateWhere(tasks: seq<Task>, id: int, update: Task -> Task): (r: seq<Task>)
    ensures |r| == |tasks|
    ensures forall i :: 0 <= i < |tasks| ==>
              r[i] == if tasks[i].id == id then update(tasks[i]) else tasks[i]
  {
    if tasks == [] then []
    else [if tasks[0].id == id then update(tasks[0]) else tasks[0]]
         + UpdateWhere(tasks[1..], id, update)
  }

  /** Flips `done` of the tasks carrying `id`. */
  function ToggleTaskDone(tasks: seq<Task>, id: int): (r: seq<Task>)
    ensures |r| == |tasks|
    ensures forall i :: 0 <= i < |tasks| ==>
              && r[i].id == tasks[i].id
              && r[i].title == tasks[i].title
              && r[i].done == (if tasks[i].id == id then !tasks[i].done else tasks[i].done)
    ensures forall i :: 0 <= i < |tasks| && tasks[i].id != id ==> r[i] == tasks[i]
  {
    UpdateWhere(tasks, id, (t: Task) => t.(done := !t.done))
  }

  /** Sets the title of the tasks carrying `taskId` to `taskNewTitle`. No
      check against the other titles is made. */
  function EditTask(tasks: seq<Task>, taskId: int, taskNewTitle: string): (r: seq<Task>)
    ensures |r| == |tasks|
    ensures forall i :: 0 <= i < |tasks| ==>
              && r[i].id == tasks[i].id
              && r[i].done == tasks[i].done
              && r[i].title == (if tasks[i].id == taskId then taskNewTitle else tasks[i].title)
    ensures forall i :: 0 <= i < |tasks| && tasks[i].id != taskId ==> r[i] == tasks[i]
  {
    UpdateWhere(tasks, taskId, (t: Task) => t.(title := taskNewTitle))
  }

  /** The tasks whose id differs from `id`, in their original order. */
  function Without(tasks: seq<Task>, id: int): (r: seq<Task>)
    ensures forall t :: t in r <==> t in tasks && t.id != id
    ensures |r| == |tasks| - CountId(tasks, id)
    ensures IsSubsequence(r, tasks)
    ensures DistinctIds(tasks) ==> DistinctIds(r)
  {
    if tasks == [] then []
    else
      var rest := Without(tasks[1..], id);
      assert forall t :: t in tasks <==> t == tasks[0] || t in tasks[1..];
      if tasks[0].id == id then
        assert IsSubsequence(rest, tasks) by {
          if rest != [] { assert IsSubsequence(rest, tasks[1..]); }
        }
        rest
      else
        assert DistinctIds(tasks) ==> DistinctIds([tasks[0]] + rest) by {
          if DistinctIds(tasks) {
            forall j | 0 <= j < |rest| ensures rest[j].id != tasks[0].id {
              assert rest[j] in tasks[1..];
              var k :| 0 <= k < |tasks[1..]| && tasks[1..][k] == rest[j];
              assert tasks[k + 1] == rest[j];
            }
          }
        }
        assert ([tasks[0]] + rest)[1..] == rest;
        [tasks[0]] + rest
  }

  /** The removal dialog. The filtered list is computed when the trash icon is
      pressed, before the dialog is shown, and is kept in the dialog. */
  datatype RemovalPrompt = RemovalPrompt(id: int, removeTask: seq<Task>)

  /** Pressing the trash icon of the task carrying `id`. */
  function PromptRemoval(tasks: seq<Task>, id: int): RemovalPrompt {
    RemovalPrompt(id, Without(tasks, id))
  }

  /** Answering the dialog while the list is `current`: "Sim" installs the
      list computed at prompt time, "Não" changes nothing. */
  function Answer(current: seq<Task>, prompt: RemovalPrompt, choice: Choice): seq<Task> {
    match choice
    case Yes => prompt.removeTask
    case No => current
  }

  /** The whole remove flow on an unchanged list: prompt, then answer. */
  function RemoveTask(tasks: seq<Task>, id: int, choice: Choice): (r: seq<Task>)
    ensures choice == No ==> r == tasks
    ensures choice == Yes ==>
              && (forall t :: t in r <==> t in tasks && t.id != id)
              && |r| == |tasks| - CountId(tasks, id)
              && IsSubsequence(r, tasks)
  {
    Answer(tasks, PromptRemoval(tasks, id), choice)
  }

  /** The number shown by the header. */
  function TasksCounter(tasks: seq<Task>): nat {
    |tasks|
  }

  /** Carries out a request sent up by a row; `choice` answers the removal
      dialog when the request is a removal. */
  function Apply(tasks: seq<Task>, a: Action, choice: Choice): seq<Task> {
    match a
    case Toggle(id) => ToggleTaskDone(tasks, id)
    case Remove(id) => RemoveTask(tasks, id, choice)
    case Edit(id, title) => EditTask(tasks, id, title)
  }

  // ---------------------------------------------------------------------
  // Properties of the handlers
  // ---------------------------------------------------------------------

  /** Adding keeps titles pairwise distinct, whether or not it is accepted. */
  lemma AddKeepsTitlesDistinct(tasks: seq<Task>, newTaskTitle: string, now: int)
    requires DistinctTitles(tasks)
    ensures DistinctTitles(AddTask(tasks, newTaskTitle, now).tasks)
  {
  }

  /** Adding the same title twice: the first is accepted when the title is
      new, the second is refused with the warning and changes nothing. */
  lemma AddSameTitleTwice(tasks: seq<Task>, title: string, now1: int, now2: int)
    requires !HasTitle(tasks, title)
    ensures var first := AddTask(tasks, title, now1);
            var second := AddTask(first.tasks, title, now2);
            && !first.duplicateWarning
            && second.duplicateWarning
            && second.tasks == first.tasks
            && |second.tasks| == |tasks| + 1
  {
  }

  /** A sequence of add requests, each a title and the clock reading taken with it. */
  function AddAll(tasks: seq<Task>, requests: seq<(string, int)>): seq<Task>
    decreases |requests|
  {
    if requests == [] then tasks
    else AddAll(AddTask(tasks, requests[0].0, requests[0].1).tasks, requests[1..])
  }

  /** Titles that clash neither with each other nor with the list are all
      appended, one task per request, in request order. */
  lemma {:induction false} AddAllAppendsInOrder(tasks: seq<Task>, requests: seq<(string, int)>)
    requires forall i, j :: 0 <= i < j < |requests| ==> requests[i].0 != requests[j].0
    requires forall k :: 0 <= k < |requests| ==> !HasTitle(tasks, requests[k].0)
    ensures |AddAll(tasks, requests)| == |tasks| + |requests|
    ensures AddAll(tasks, requests)[..|tasks|] == tasks
    ensures forall k :: 0 <= k < |requests| ==>
              AddAll(tasks, requests)[|tasks| + k] == Task(requests[k].1, requests[k].0, false)
    decreases |requests|
  {
    if requests != [] {
      var next := AddTask(tasks, requests[0].0, requests[0].1).tasks;
      var rest := requests[1..];
      forall k | 0 <= k < |rest| ensures !HasTitle(next, rest[k].0) {
        assert rest[k] == requests[k + 1];
        forall i | 0 <= i < |next| ensures next[i].title != rest[k].0 {
          if i < |tasks| {
            assert next[i] == next[..|tasks|][i];
          }
        }
      }
      AddAllAppendsInOrder(next, rest);
      var all := AddAll(tasks, requests);
      assert all == AddAll(next, rest);
      assert all[..|tasks|] == tasks by {
        assert all[..|next|][..|tasks|] == all[..|tasks|];
      }
      forall k | 0 <= k < |requests|
        ensures all[|tasks| + k] == Task(requests[k].1, requests[k].0, false)
      {
        if k == 0 {
          assert all[..|next|][|tasks|] == all[|tasks|];
        } else {
          assert rest[k - 1] == requests[k];
        }
      }
    }
  }

  /** Toggling the same id twice gives back the original list. No uniqueness
      of ids is needed: every task carrying the id is flipped twice. */
  lemma ToggleTwiceRestores(tasks: seq<Task>, id: int)
    ensures ToggleTaskDone(ToggleTaskDone(tasks, id), id) == tasks
  {
  }

  /** Editing an id that no task carries leaves the list as it is. */
  lemma EditUnknownIdIsNoop(tasks: seq<Task>, taskId: int, taskNewTitle: string)
    requires !HasId(tasks, taskId)
    ensures EditTask(tasks, taskId, taskNewTitle) == tasks
  {
  }

  /** Toggling an id that no task carries leaves the list as it is. */
  lemma ToggleUnknownIdIsNoop(tasks: seq<Task>, id: int)
    requires !HasId(tasks, id)
    ensures ToggleTaskDone(tasks, id) == tasks
  {
  }

  /** Editing does not check titles: renaming one task to the title of a task
      with another id leaves two tasks with the same title. */
  lemma EditCanDuplicateTitle(tasks: seq<Task>, i: int, j: int)
    requires 0 <= i < |tasks| && 0 <= j < |tasks|
    requires tasks[i].id != tasks[j].id
    ensures !DistinctTitles(EditTask(tasks, tasks[i].id, tasks[j].title))
  {
  }

  /** Editing keeps titles distinct when the id is carried by at most one task
      and the new title is not used by any task with another id. */
  lemma EditFreshTitleKeepsDistinct(tasks: seq<Task>, taskId: int, taskNewTitle: string)
    requires DistinctTitles(tasks)
    requires forall i, j :: 0 <= i < j < |tasks| && tasks[i].id == taskId ==> tasks[j].id != taskId
    requires forall i :: 0 <= i < |tasks| && tasks[i].id != taskId ==> tasks[i].title != taskNewTitle
    ensures DistinctTitles(EditTask(tasks, taskId, taskNewTitle))
  {
  }

  /** Removing an id that no task carries leaves the list as it is. */
  lemma {:induction false} WithoutUnknownIdIsNoop(tasks: seq<Task>, id: int)
    requires !HasId(tasks, id)
    ensures Without(tasks, id) == tasks
  {
    if tasks != [] {
      assert tasks[0].id != id;
      assert !HasId(tasks[1..], id) by {
        forall i | 0 <= i < |tasks[1..]| ensures tasks[1..][i].id != id {
          assert tasks[1..][i] == tasks[i + 1];
        }
      }
      WithoutUnknownIdIsNoop(tasks[1..], id);
      assert tasks == [tasks[0]] + tasks[1..];
    }
  }

  /** After a confirmed removal no task carries the id (the count is zero),
      and removing it a second time changes nothing. */
  lemma RemoveIsIdempotent(tasks: seq<Task>, id: int)
    ensures !HasId(RemoveTask(tasks, id, Yes), id)
    ensures CountId(RemoveTask(tasks, id, Yes), id) == 0
    ensures RemoveTask(RemoveTask(tasks, id, Yes), id, Yes) == RemoveTask(tasks, id, Yes)
  {
    var r := RemoveTask(tasks, id, Yes);
    assert !HasId(r, id) by {
      forall i | 0 <= i < |r| ensures r[i].id != id {
        assert r[i] in r;
      }
    }
    CountIdZero(r, id);
    WithoutUnknownIdIsNoop(r, id);
  }

  /** A confirmed removal installs the list filtered from the snapshot taken
      when the trash icon was pressed, whatever the list is at answer time. */
  lemma ConfirmedRemovalUsesSnapshot(snapshot: seq<Task>, current: seq<Task>, id: int)
    ensures Answer(current, PromptRemoval(snapshot, id), Yes) == RemoveTask(snapshot, id, Yes)
    ensures forall t :: t in Answer(current, PromptRemoval(snapshot, id), Yes) ==> t in snapshot
  {
  }

  /** The header counter follows every handler: +1 for an accepted add, 0 for a
      refused one, 0 for toggle and edit, minus the matching tasks for a confirmed removal. */
  lemma CounterFollowsHandlers(tasks: seq<Task>, title: string, now: int, id: int, choice: Choice)
    ensures TasksCounter(AddTask(tasks, title, now).tasks)
              == TasksCounter(tasks) + (if HasTitle(tasks, title) then 0 else 1)
    ensures TasksCounter(ToggleTaskDone(tasks, id)) == TasksCounter(tasks)
    ensures TasksCounter(EditTask(tasks, id, title)) == TasksCounter(tasks)
    ensures TasksCounter(RemoveTask(tasks, id, choice))
              == TasksCounter(tasks) - (if choice == Yes then CountId(tasks, id) else 0)
  {
  }

  /** The walk-through: add "Buy milk", toggle it, rename it, remove it with "Sim". */
  lemma BuyMilkScenario(now: int)
    ensures var added := AddTask([], "Buy milk", now);
            var toggled := ToggleTaskDone(added.tasks, now);
            var edited := EditTask(toggled, now, "Buy oat milk");
            var removed := RemoveTask(edited, now, Yes);
            && !added.duplicateWarning
            && added.tasks == [Task(now, "Buy milk", false)]
            && toggled == [Task(now, "Buy milk", true)]
            && edited == [Task(now, "Buy oat milk", true)]
            && removed == []
  {
  }
}
