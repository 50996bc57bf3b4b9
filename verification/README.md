# To-do list screen: a Dafny model

This project models the logic of a one-screen mobile to-do app. The app has two
parts.

- **Home**, the root screen, owns an ordered list of tasks. Each task has an id,
  a title and a `done` flag. Home changes the list through four handlers: add
  (which refuses a title that is already present), toggle, remove (after a
  "Não"/"Sim" confirmation) and edit. The header shows the number of tasks.
- **TaskItem** renders one task. It keeps two pieces of local state: whether the
  title is being edited, and the draft text. Through its callbacks it asks Home
  to toggle, remove or edit its task.

The model has four modules:

- `Tasks`: the shared vocabulary. It holds the `Task` record, the three row
  callbacks as an `Action` datatype, the dialog answer `Choice`, and predicates
  such as `DistinctTitles` and `DistinctIds`.
- `Home`: the four handlers as pure functions on `seq<Task>`, the header counter,
  and properties relating them.
- `TaskItem`: the row as a state machine. It has a state record, an event type,
  and a `Handle` function that returns the new state and the callback invoked,
  if any. `Run` plays a sequence of events.
- `Screen`: Home together with one row state per task, keyed by task id. It
  proves an invariant: ids are distinct, there is one row per task, and every
  row that is not being edited shows its task's current title. Every event
  preserves the invariant, provided each new task gets a clock reading that no
  task already carries.

Points worth knowing:

- Toggling the same id twice restores the list with no precondition on ids:
  every task that carries the id is flipped twice.
- Editing performs no duplicate check, so it can break title uniqueness
  (`Home.EditCanDuplicateTitle`). Adding always keeps titles unique. This
  asymmetry is how the program behaves, and the model keeps it.
- The removal dialog holds the filtered list computed when the trash icon was
  pressed. "Sim" installs that list whatever the list is at answer time
  (`Home.ConfirmedRemovalUsesSnapshot`).
- After a submit, the row keeps its draft as typed. The row shows the task's
  title again only because the screen applies the edit to that same task. With
  duplicate ids this would not hold, which is why the screen invariant includes
  `DistinctIds`.
- The text field accepts typing only while editing. The raw text handler is not
  gated, so the `editable` flag is what keeps a viewing row in step with its task
  (`TaskItem.UngatedTypingDesynchronises`).
- The row body's press handler has no guard, so a toggle request is sent in both
  the viewing and the editing state.

## Model

| member | source | states |
|---|---|---|
| `Home.FindByTitle` | src/pages/Home.tsx:12 | the result is absent exactly when no task has the title; otherwise it is the first task, in list order, with exactly that title |
| `Home.AddTask` | src/pages/Home.tsx:11-26 | the warning is raised exactly when some task already has the title, and then the list is unchanged; otherwise the list grows by one, the old list is its prefix, and the last task is (clock reading, title, not done) |
| `Home.AddKeepsTitlesDistinct` | src/pages/Home.tsx:11-25 | if titles are pairwise distinct before an add, they are pairwise distinct after it, whether the add is accepted or refused |
| `Home.AddSameTitleTwice` | src/pages/Home.tsx:12-17 | adding a new title twice: the first add is accepted, the second is refused with the warning and leaves the list (length one more than at the start) unchanged |
| `Home.AddAllAppendsInOrder` | src/pages/Home.tsx:19-25 | a series of adds whose titles clash neither with each other nor with the list appends one task per request, in request order, after the untouched old list |
| `Home.UpdateWhere` | src/pages/Home.tsx:29-32 | the per-task map keeps the length, and replaces exactly the tasks carrying the id by the update of them |
| `Home.ToggleTaskDone` | src/pages/Home.tsx:28-34 | length, order, ids and titles are kept; `done` is negated exactly on the tasks carrying the id; every other task is unchanged |
| `Home.ToggleTwiceRestores` | src/pages/Home.tsx:29-32 | toggling the same id twice gives back the original list |
| `Home.ToggleUnknownIdIsNoop` | src/pages/Home.tsx:29-33 | toggling an id that no task carries leaves the list unchanged |
| `Home.Without` | src/pages/Home.tsx:37 | the filter keeps exactly the tasks whose id differs, as a subsequence of the list, with the length reduced by the number of tasks carrying the id, and keeps ids distinct |
| `Home.RemoveTask` | src/pages/Home.tsx:36-52 | "Não" leaves the list unchanged; "Sim" gives exactly the tasks whose id differs, in their original relative order |
| `Home.WithoutUnknownIdIsNoop` | src/pages/Home.tsx:37 | removing an id that no task carries leaves the list unchanged |
| `Home.RemoveIsIdempotent` | src/pages/Home.tsx:37-48 | after a confirmed removal no task carries the id (its count is zero), and a second confirmed removal changes nothing |
| `Home.ConfirmedRemovalUsesSnapshot` | src/pages/Home.tsx:37-48 | answering "Sim" installs the list filtered from the snapshot taken when the trash icon was pressed, whatever the list is when the answer comes; every task in it comes from that snapshot |
| `Home.EditTask` | src/pages/Home.tsx:54-60 | length, order, every id and every `done` are kept; exactly the tasks carrying the id get the new title; every other task is unchanged |
| `Home.EditUnknownIdIsNoop` | src/pages/Home.tsx:55-59 | editing an id that no task carries leaves the list unchanged |
| `Home.EditCanDuplicateTitle` | src/pages/Home.tsx:54-59 | renaming a task to the title of a task with another id leaves two tasks with the same title: edit does not keep uniqueness |
| `Home.EditFreshTitleKeepsDistinct` | src/pages/Home.tsx:54-59 | when the id is carried by at most one task and no task with another id has the new title, distinct titles stay distinct |
| `Home.CounterFollowsHandlers` | src/pages/Home.tsx:64 | the header count (the list length) goes up by one on an accepted add, stays the same on a refused add, a toggle or an edit, and goes down by the number of matching tasks on a confirmed removal |
| `Home.BuyMilkScenario` | src/pages/Home.tsx:11-59 | add "Buy milk", toggle it, rename it to "Buy oat milk", remove it with "Sim": each step gives the expected one-element list, and the last gives the empty list |
| `TaskItem.Mount` | src/components/TaskItem.tsx:17-18 | a newly mounted row is not editing, and its draft is the task's title |
| `TaskItem.Handle` | src/components/TaskItem.tsx:30-101 | start sets editing and keeps the draft; cancel resets the draft to the task's title and stops editing without a callback; submit invokes edit(task id, current draft), stops editing and keeps the draft; typing replaces the draft only while editing; row and trash presses invoke toggle and remove with the task id and change nothing; an event from a control that is not shown has no effect; an edit request is emitted exactly on an accepted submit |
| `TaskItem.RunEmitsOwnId` | src/components/TaskItem.tsx:40-101 | every callback a row invokes, over any run of events, carries its task's id |
| `TaskItem.TypeThenCancelRestores` | src/components/TaskItem.tsx:34-37 | from the editing state, any amount of typing followed by cancel gives the mounted state and invokes no callback |
| `TaskItem.StartTypeCancelRestores` | src/components/TaskItem.tsx:30-37 | start, type, then cancel: the row is back to its mounted state and no edit is requested |
| `TaskItem.EditsOnlyFromSubmit` | src/components/TaskItem.tsx:39-42 | a run of events without a submit invokes no edit callback |
| `TaskItem.EventsKeepTitleShown` | src/components/TaskItem.tsx:30-42 | every event except submit keeps a viewing row showing the task's title; after a submit the row shows the submitted draft, which becomes the title once the edit is applied |
| `TaskItem.UngatedTypingDesynchronises` | src/components/TaskItem.tsx:69-70 | the raw text handler would desynchronise a viewing row from its task; through the editable field, typing while viewing changes nothing |
| `Screen.Step` | src/pages/Home.tsx:62-75 | submitting a new title changes the list exactly as the add handler does; on the row of a task in the list, a row press applies the toggle handler, a trash press applies the remove handler with the dialog answer, and a submit while editing applies the edit handler with the row's draft; an event on a row whose id is not in the list changes nothing |
| `Screen.InitialConsistent` | src/pages/Home.tsx:9 | the empty screen satisfies the screen invariant |
| `Screen.AddKeepsConsistent` | src/pages/Home.tsx:19-25 | an add with a clock reading that no task carries keeps the invariant, and the new row starts in its mounted state |
| `Screen.EditKeepsConsistent` | src/components/TaskItem.tsx:39-42 | an edit request from a row that stops editing with its draft keeps the invariant: the task's title becomes the draft the row shows |
| `Screen.ConfirmedRemovalKeepsConsistent` | src/pages/Home.tsx:37-48 | a confirmed removal keeps the invariant, and the row of the removed task is unmounted |
| `Screen.TaskRowKeepsConsistent` | src/components/TaskItem.tsx:30-101 | every row event keeps the invariant |
| `Screen.StepKeepsConsistent` | src/components/TaskItem.tsx:17-42 | every user event keeps the invariant (distinct ids, one row per task, viewing rows show their task's title), provided new tasks get fresh clock readings |
| `Screen.CounterMatchesRows` | src/pages/Home.tsx:64 | on a consistent screen, the header count equals the number of rows |
| `Screen.SubmitCommitsDraft` | src/components/TaskItem.tsx:39-42 | submitting an editing row stores its draft as the title of the tasks with that id, leaves the others unchanged, and returns the row to viewing mode with the draft kept |
| `Screen.CancelLeavesTasks` | src/components/TaskItem.tsx:34-37 | cancelling an edit never changes the list |

## Left out

- Clock: the id comes from a clock reading (`src/pages/Home.tsx:20`). Here it is the parameter `now`. Ids are not assumed unique, except where the screen invariant needs it. There, a fresh reading is a precondition of the add step.
- Ids are JavaScript numbers, modelled as unbounded `int`. Millisecond timestamps are exact integers well below 2^53.
- Dialogs: the alert dialogs (`src/pages/Home.tsx:15`, `39-51`) are not drawn. The duplicate warning is the flag `duplicateWarning`. The removal answer is the `Choice` input (`No` for "Não", `Yes` for "Sim").
- Focus: the focus/blur effect (`src/components/TaskItem.tsx:21-28`) is a UI side effect through a ref.
- Presentation: styles, icons, the done marker, strike-through text and layout are pure presentation.
- Collaborators: `Header`, `TodoInput` and `TasksList` are not part of this model. `Screen` assumes that `TasksList` mounts one row per task, keyed by the task id, and forwards each callback unchanged. Any validation of empty titles belongs to `TodoInput` and is not modelled.
- React state: React's re-rendering and `useState` batching are not modelled. Every update is a sequential replacement of the state. The functional update `oldState => [...oldState, data]` and the snapshot `tasks` are therefore the same list.
- TaskItem.Handle: the row treats a keyboard submit like typing. It is accepted only while the field is editable (`editable={isEditingText}`), because a read-only field cannot take keyboard input. `handleSubmitEditing` itself has no guard.
