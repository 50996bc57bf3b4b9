/**
 One row of the list. Its local state is whether the title field is being
 edited and the draft text in that field; the task itself is a prop and
 may change between events (the screen re-renders it after an edit).
 */
module TaskItem {
  import opened Tasks

  datatype RowState = RowState(isEditingText: bool, editedTask: string)

  /** What the user can do on a row. */
  datatype RowEvent =
    | StartEditing        // pen icon
    | CancelEditing       // "x" icon
    | SubmitEditing       // keyboard submit in the title field
    | ChangeText(text: string)
    | PressRow            // the row body
    | PressTrash          // trash icon

  /** The state after an event and the callback it invoked, if any. */
  datatype Step = Step(state: RowState, emitted: Option<Action>)

  /** The state a freshly mounted row starts in. */
  function Mount(task: Task): (s: RowState)
    ensures !s.isEditingText
    ensures s.editedTask == task.title
  {
    RowState(false, task.title)
  }

  function HandleStartEditing(s: RowState): RowState {
    s.(isEditingText := true)
  }

  function HandleCancelEditing(task: Task, s: RowState): RowState {
    RowState(false, task.title)
  }

  function HandleSubmitEditing(task: Task, s: RowState): Step {
    Step(s.(isEditingText := false), Some(Edit(task.id, s.editedTask)))
  }

  function OnChangeText(s: RowState, text: string): RowState {
    s.(editedTask := text)
  }

  /** Whether the control the event comes from is on screen and live: the
      "x" icon is shown only while editing and the pen only while not; the
      title field is editable (typing and submitting) only while editing; the
      row body and the trash icon are always there. */
  predicate Available(s: RowState, e: RowEvent) {
    match e
    case StartEditing => !s.isEditingText
    case CancelEditing => s.isEditingText
    case SubmitEditing => s.isEditingText
    case ChangeText(_) => s.isEditingText
    case PressRow => true
    case PressTrash => true
  }

  /** One user event on the row showing `task`. An event from a control that
      is not available has no effect. */
  function Handle(task: Task, s: RowState, e: RowEvent): (r: Step)
    ensures !Available(s, e) ==> r == Step(s, None)
    ensures Available(s, e) && e.StartEditing? ==>
              r == Step(RowState(true, s.editedTask), None)
    ensures Available(s, e) && e.CancelEditing? ==>
              r == Step(Mount(task), None)
    ensures Available(s, e) && e.SubmitEditing? ==>
              r == Step(RowState(false, s.editedTask), Some(Edit(task.id, s.editedTask)))
    ensures Available(s, e) && e.ChangeText? ==>
              r == Step(RowState(true, e.text), None)
    ensures e.PressRow? ==> r == Step(s, Some(Toggle(task.id)))
    ensures e.PressTrash? ==> r == Step(s, Some(Remove(task.id)))
    ensures r.emitted.Some? ==> r.emitted.value.id == task.id
    ensures r.emitted.Some? && r.emitted.value.Edit? <==> Available(s, e) && e.SubmitEditing?
  {
    if !Available(s, e) then Step(s, None)
    else
      match e
      case StartEditing => Step(HandleStartEditing(s), None)
      case CancelEditing => Step(HandleCancelEditing(task, s), None)
      case SubmitEditing => HandleSubmitEditing(task, s)
      case ChangeText(text) => Step(OnChangeText(s, text), None)
      case PressRow => Step(s, Some(Toggle(task.id)))
      case PressTrash => Step(s, Some(Remove(task.id)))
  }

  /** A run of events on a row whose task does not change; returns the final
      state and the callbacks invoked, in order. */
  function Run(task: Task, s: RowState, events: seq<RowEvent>): (RowState, seq<Action>)
    decreases |events|
  {
    if events == [] then (s, [])
    else
      var step := Handle(task, s, events[0]);
      var next := Run(task, step.state, events[1..]);
      (next.0, Emitted(step) + next.1)
  }

  /** The callbacks a step invoked, as a list of zero or one. */
  function Emitted(step: Step): seq<Action> {
    match step.emitted
    case Some(a) => [a]
    case None => []
  }

  /** The number of edit requests among `actions`. */
  function CountEdits(actions: seq<Action>): nat {
    if actions == [] then 0
    else (if actions[0].Edit? then 1 else 0) + CountEdits(actions[1..])
  }

  /** A row that is not being edited shows the task's own title. */
  predicate ShowsTitle(task: Task, s: RowState) {
    !s.isEditingText ==> s.editedTask == task.title
  }

  /** Every callback a row invokes carries the id of its task. */
  lemma {:induction false} RunEmitsOwnId(task: Task, s: RowState, events: seq<RowEvent>)
    ensures forall a :: a in Run(task, s, events).1 ==> a.id == task.id
    decreases |events|
  {
    if events != [] {
      var step := Handle(task, s, events[0]);
      RunEmitsOwnId(task, step.state, events[1..]);
    }
  }

  /** Typing after starting an edit and then cancelling gives back the state
      of a freshly mounted row, and no callback is invoked. */
  lemma StartTypeCancelRestores(task: Task, typed: seq<string>)
    ensures Run(task, Mount(task),
                [StartEditing] + seq(|typed|, k requires 0 <= k < |typed| => ChangeText(typed[k]))
                + [CancelEditing])
            == (Mount(task), [])
  {
    var changes := seq(|typed|, k requires 0 <= k < |typed| => ChangeText(typed[k]));
    var s1 := Handle(task, Mount(task), StartEditing).state;
    assert ([StartEditing] + changes + [CancelEditing])[1..] == changes + [CancelEditing];
    TypeThenCancelRestores(task, s1, changes);
  }

  /** While editing, a run of text changes followed by cancel returns to the
      mounted state without invoking any callback. */
  lemma {:induction false} TypeThenCancelRestores(task: Task, s: RowState, changes: seq<RowEvent>)
    requires s.isEditingText
    requires forall k :: 0 <= k < |changes| ==> changes[k].ChangeText?
    ensures Run(task, s, changes + [CancelEditing]) == (Mount(task), [])
    decreases |changes|
  {
    if changes == [] {
      var evs := changes + [CancelEditing];
      assert evs[0] == CancelEditing && evs[1..] == [];
      assert Emitted(Handle(task, s, evs[0])) == [];
      assert Run(task, s, evs).1 == [];
    } else {
      var next := Handle(task, s, changes[0]).state;
      assert (changes + [CancelEditing])[1..] == changes[1..] + [CancelEditing];
      TypeThenCancelRestores(task, next, changes[1..]);
    }
  }

  /** Only a submit sends an edit request: a run without one (cancel, typing,
      presses) sends none. */
  lemma {:induction false} EditsOnlyFromSubmit(task: Task, s: RowState, events: seq<RowEvent>)
    requires forall k :: 0 <= k < |events| ==> !events[k].SubmitEditing?
    ensures CountEdits(Run(task, s, events).1) == 0
    decreases |events|
  {
    if events != [] {
      var step := Handle(task, s, events[0]);
      EditsOnlyFromSubmit(task, step.state, events[1..]);
      var rest := Run(task, step.state, events[1..]).1;
      match step.emitted
      case None =>
        assert [] + rest == rest;
      case Some(a) =>
        assert !a.Edit?;
        assert ([a] + rest)[1..] == rest;
    }
  }

  /** Every event except submit keeps the displayed title in step with the
      task; submit leaves the draft as typed, so the row shows the task's
      title again only once the screen applies the edit. */
  lemma EventsKeepTitleShown(task: Task, s: RowState, e: RowEvent)
    requires ShowsTitle(task, s)
    ensures !e.SubmitEditing? ==> ShowsTitle(task, Handle(task, s, e).state)
    ensures e.SubmitEditing? ==>
              ShowsTitle(task.(title := s.editedTask), Handle(task, s, e).state)
  {
  }

  /** The raw text handler is not gated: a change delivered to a field that is
      not editable would desynchronise the row from its task. The editable flag
      is what keeps the row honest. */
  lemma UngatedTypingDesynchronises(task: Task, text: string)
    requires text != task.title
    ensures !ShowsTitle(task, OnChangeText(Mount(task), text))
    ensures Handle(task, Mount(task), ChangeText(text)).state == Mount(task)
  {
  }
}
