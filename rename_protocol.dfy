/**
 * The rename-and-overwrite protocol of the save widget as a state machine
 * over plain values (savewidget.js:60-142). The two dialogs call each other
 * back (Cancel on the overwrite dialog reopens the rename prompt); here
 * every button press is one transition of `Step`, and a sequence of presses
 * is folded by `Run`. The class in module SaveWidgetModel is proved to make
 * exactly these transitions.
 *
 * The notebook's own name and the requests the widget causes
 * (notebook_list's GET, save_notebook, replace_notebook) are recorded in the
 * session, so that every effect of a button press is visible.
 */
module RenameProtocol {
  import opened NotebookNames
  import NameRule

  /** Heading of a freshly opened rename prompt. */
  const PromptHeading: string := "Enter a new notebook name:"

  /** Heading the prompt switches to when the validator rejects a name. */
  const InvalidNameHeading: string :=
    "Invalid notebook name. Notebook names must have 1 or more characters and can contain any characters except :/\\. Please enter a new notebook name:"

  /** Status text set on the `notebook_save_failed` event. */
  const SaveFailedStatus: string := "Last Save Failed!"

  /** Which dialog is open: none, the rename prompt (its heading and the
      text in its input field), or the overwrite confirmation for a name. */
  datatype Dialog = Idle | Prompting(heading: string, input: string) | Confirming(target: string)

  /** A request the widget causes: the name-list GET with the names it
      yielded and whether it failed, save_notebook or replace_notebook. The last two take no
      argument in the source; they store the notebook under whatever name
      it has at that moment, which is recorded here. */
  datatype StoreCall =
    | ListNotebooks(listed: seq<string>, failed: bool)
    | SaveNotebook(name: string)
    | ReplaceNotebook(name: string)

  /** The state a button press can change: the notebook's name, the open
      dialog, the log of requests and the save-status text. */
  datatype Session = Session(name: string, dialog: Dialog, calls: seq<StoreCall>, status: string)

  /** A click in the widget, or the save-failed notification. `Dismiss` is
      closing whichever dialog is open with Escape or its title-bar icon:
      jQuery UI then runs only the dialog's `close` callback, which removes
      it, and no button handler. */
  datatype Event =
    | ClickName
    | PressOk(input: string, response: ListResponse)
    | PressCancelRename
    | PressReplace
    | PressCancelOverwrite
    | Dismiss
    | SaveFailed

  /** The session of a freshly constructed widget on a notebook named
      `initial`: no dialog, no request yet, an empty status. */
  function Start(initial: string): (s: Session)
  {
    Session(initial, Idle, [], "")
  }

  /** rename_notebook: opens the prompt with the standard heading and the
      notebook's current name in the input field. */
  function OpenPrompt(s: Session): (t: Session)
  {
    s.(dialog := Prompting(PromptHeading, s.name))
  }

  /** The OK handler of the rename prompt. A rejected name only changes the
      heading. An accepted one triggers notebook_list; if is_present finds
      it, the overwrite dialog opens and the prompt closes; otherwise the
      name is set, the notebook is saved and the prompt closes. */
  function Submit(s: Session, input: string, valid: string -> bool, response: ListResponse): (t: Session)
  {
    if !valid(input) then
      s.(dialog := Prompting(InvalidNameHeading, input))
    else
      var names := ListedNames(response);
      var listing := ListNotebooks(names, response.Failure?);
      if input in names then
        s.(dialog := Confirming(input), calls := s.calls + [listing])
      else
        s.(name := input, dialog := Idle, calls := s.calls + [listing, SaveNotebook(input)])
  }

  /** One transition. A button that is not on screen cannot be pressed:
      such an event leaves the session as it is. */
  function Step(s: Session, e: Event, valid: string -> bool): (t: Session)
  {
    match e
    case ClickName => OpenPrompt(s)
    case PressOk(input, response) =>
      if s.dialog.Prompting? then Submit(s, input, valid, response) else s
    case PressCancelRename =>
      if s.dialog.Prompting? then s.(dialog := Idle) else s
    case PressReplace =>
      if s.dialog.Confirming? then
        s.(name := s.dialog.target, dialog := Idle,
           calls := s.calls + [ReplaceNotebook(s.dialog.target)])
      else s
    case PressCancelOverwrite =>
      if s.dialog.Confirming? then OpenPrompt(s) else s
    case Dismiss => s.(dialog := Idle)
    case SaveFailed => s.(status := SaveFailedStatus)
  }

  /** The session after a sequence of events. */
  function Run(s: Session, events: seq<Event>, valid: string -> bool): (r: Session)
    decreases |events|
  {
    if events == [] then s else Run(Step(s, events[0], valid), events[1..], valid)
  }

  /** Running one more event is one more step after the run. */
  lemma {:induction false} RunSnoc(s: Session, events: seq<Event>, e: Event, valid: string -> bool)
    ensures Run(s, events + [e], valid) == Step(Run(s, events, valid), e, valid)
    decreases |events|
  {
    if events == [] {
      assert [e][1..] == [];
    } else {
      assert (events + [e])[0] == events[0];
      assert (events + [e])[1..] == events[1..] + [e];
      RunSnoc(Step(s, events[0], valid), events[1..], e, valid);
    }
  }

  // ---------------------------------------------------------------------
  // What holds after every run
  // ---------------------------------------------------------------------

  /** The name the last save or replace request in `calls` carried, or
      `initial` when there was none. Whether the server stored it is not
      known here: a save can still fail afterwards. */
  function LastWritten(calls: seq<StoreCall>, initial: string): (n: string)
  {
    if calls == [] then initial
    else match calls[|calls| - 1]
      case ListNotebooks(_, _) => LastWritten(calls[..|calls| - 1], initial)
      case SaveNotebook(n) => n
      case ReplaceNotebook(n) => n
  }

  /** Every save and replace request in the log carries a name the
      validator accepts. */
  ghost predicate WritesValid(calls: seq<StoreCall>, valid: string -> bool)
  {
    forall k :: 0 <= k < |calls| && !calls[k].ListNotebooks? ==> valid(calls[k].name)
  }

  /** Every save comes right after a name listing that did not contain the
      name, and every replace right after one that did; a failed listing is
      recorded with no names. */
  ghost predicate WritesGuarded(calls: seq<StoreCall>)
  {
    && (forall k :: 0 <= k < |calls| && calls[k].ListNotebooks? && calls[k].failed ==>
          calls[k].listed == [])
    && (forall k :: 0 <= k < |calls| && calls[k].SaveNotebook? ==>
          0 < k && calls[k - 1].ListNotebooks? && calls[k].name !in calls[k - 1].listed)
    && (forall k :: 0 <= k < |calls| && calls[k].ReplaceNotebook? ==>
          0 < k && calls[k - 1].ListNotebooks? && calls[k].name in calls[k - 1].listed)
  }

  /** The overwrite dialog is open only for an accepted name that the last
      request, a name listing, contained. */
  ghost predicate ConfirmGuarded(s: Session, valid: string -> bool)
  {
    s.dialog.Confirming? ==>
      && valid(s.dialog.target)
      && |s.calls| > 0
      && s.calls[|s.calls| - 1].ListNotebooks?
      && s.dialog.target in s.calls[|s.calls| - 1].listed
  }

  /** The invariant of the protocol for a notebook first named `initial`:
      the notebook's name is the one the last save or replace request
      carried, and every such request was validated and guarded by a
      listing. */
  ghost predicate Inv(s: Session, initial: string, valid: string -> bool)
  {
    && s.name == LastWritten(s.calls, initial)
    && WritesValid(s.calls, valid)
    && WritesGuarded(s.calls)
    && ConfirmGuarded(s, valid)
  }

  lemma LastWrittenAppendList(calls: seq<StoreCall>, x: StoreCall, initial: string)
    requires x.ListNotebooks?
    ensures LastWritten(calls + [x], initial) == LastWritten(calls, initial)
  {
    assert (calls + [x])[..|calls|] == calls;
  }

  lemma ValidAppend(calls: seq<StoreCall>, x: StoreCall, valid: string -> bool)
    requires WritesValid(calls, valid)
    requires !x.ListNotebooks? ==> valid(x.name)
    ensures WritesValid(calls + [x], valid)
  {
    var c := calls + [x];
    forall k | 0 <= k < |c| && !c[k].ListNotebooks? ensures valid(c[k].name) {
      if k < |calls| { assert c[k] == calls[k]; }
    }
  }

  lemma GuardedAppend(calls: seq<StoreCall>, x: StoreCall)
    requires WritesGuarded(calls)
    requires x.SaveNotebook? ==>
      |calls| > 0 && calls[|calls| - 1].ListNotebooks? && x.name !in calls[|calls| - 1].listed
    requires x.ReplaceNotebook? ==>
      |calls| > 0 && calls[|calls| - 1].ListNotebooks? && x.name in calls[|calls| - 1].listed
    requires x.ListNotebooks? && x.failed ==> x.listed == []
    ensures WritesGuarded(calls + [x])
  {
    var c := calls + [x];
    forall k | 0 <= k < |c| && c[k].ListNotebooks? && c[k].failed ensures c[k].listed == [] {
      if k < |calls| { assert c[k] == calls[k]; }
    }
    forall k | 0 <= k < |c| && c[k].SaveNotebook?
      ensures 0 < k && c[k - 1].ListNotebooks? && c[k].name !in c[k - 1].listed
    {
      if k < |calls| { assert c[k] == calls[k] && c[k - 1] == calls[k - 1]; }
      else { assert c[k - 1] == calls[|calls| - 1]; }
    }
    forall k | 0 <= k < |c| && c[k].ReplaceNotebook?
      ensures 0 < k && c[k - 1].ListNotebooks? && c[k].name in c[k - 1].listed
    {
      if k < |calls| { assert c[k] == calls[k] && c[k - 1] == calls[k - 1]; }
      else { assert c[k - 1] == calls[|calls| - 1]; }
    }
  }

  /** OK with an accepted name keeps the invariant, on both branches. */
  lemma SubmitKeepsInv(s: Session, input: string, valid: string -> bool, response: ListResponse, initial: string)
    requires Inv(s, initial, valid) && valid(input)
    ensures Inv(Submit(s, input, valid, response), initial, valid)
  {
    var names := ListedNames(response);
    var listing := ListNotebooks(names, response.Failure?);
    var c := s.calls + [listing];
    ValidAppend(s.calls, listing, valid);
    GuardedAppend(s.calls, listing);
    if input in names {
      LastWrittenAppendList(s.calls, listing, initial);
    } else {
      ValidAppend(c, SaveNotebook(input), valid);
      GuardedAppend(c, SaveNotebook(input));
      assert Submit(s, input, valid, response).calls == c + [SaveNotebook(input)];
    }
  }

  /** Replace keeps the invariant. */
  lemma ReplaceKeepsInv(s: Session, initial: string, valid: string -> bool)
    requires Inv(s, initial, valid) && s.dialog.Confirming?
    ensures Inv(Step(s, PressReplace, valid), initial, valid)
  {
    ValidAppend(s.calls, ReplaceNotebook(s.dialog.target), valid);
    GuardedAppend(s.calls, ReplaceNotebook(s.dialog.target));
  }

  /** Each transition keeps the invariant. */
  lemma StepKeepsInv(s: Session, e: Event, initial: string, valid: string -> bool)
    requires Inv(s, initial, valid)
    ensures Inv(Step(s, e, valid), initial, valid)
  {
    match e
    case PressOk(input, response) =>
      if s.dialog.Prompting? && valid(input) {
        SubmitKeepsInv(s, input, valid, response, initial);
      }
    case PressReplace =>
      if s.dialog.Confirming? {
        ReplaceKeepsInv(s, initial, valid);
      }
    case _ =>
  }

  /** Every run keeps the invariant. */
  lemma {:induction false} RunKeepsInv(s: Session, events: seq<Event>, initial: string, valid: string -> bool)
    requires Inv(s, initial, valid)
    ensures Inv(Run(s, events, valid), initial, valid)
    decreases |events|
  {
    if events != [] {
      StepKeepsInv(s, events[0], initial, valid);
      RunKeepsInv(Step(s, events[0], valid), events[1..], initial, valid);
    }
  }

  /** Requests are only ever appended: a run never rewrites the log. */
  lemma {:induction false} RunExtendsLog(s: Session, events: seq<Event>, valid: string -> bool)
    ensures s.calls <= Run(s, events, valid).calls
    decreases |events|
  {
    if events != [] {
      var t := Step(s, events[0], valid);
      assert s.calls <= t.calls;
      RunExtendsLog(t, events[1..], valid);
    }
  }

  lemma {:induction false} LastWrittenValid(calls: seq<StoreCall>, initial: string, valid: string -> bool)
    requires WritesValid(calls, valid)
    ensures LastWritten(calls, initial) == initial || valid(LastWritten(calls, initial))
    decreases |calls|
  {
    if calls != [] && calls[|calls| - 1].ListNotebooks? {
      var front := calls[..|calls| - 1];
      assert forall k :: 0 <= k < |front| ==> front[k] == calls[k];
      LastWrittenValid(front, initial, valid);
    }
  }

  /** From a freshly constructed widget, whatever the user clicks and the
      server answers: the notebook carries its first name or one the
      validator accepted, that name is the one the last save or replace
      request carried, no save happens without a listing that lacked the
      name and no replace without one that held it, and a save after a
      failed listing is recorded as such. */
  lemma EveryRunIsSafe(initial: string, events: seq<Event>, valid: string -> bool)
    ensures var r := Run(Start(initial), events, valid);
      && r.name == LastWritten(r.calls, initial)
      && (r.name == initial || valid(r.name))
      && WritesValid(r.calls, valid)
      && WritesGuarded(r.calls)
  {
    RunKeepsInv(Start(initial), events, initial, valid);
    var r := Run(Start(initial), events, valid);
    LastWrittenValid(r.calls, initial, valid);
  }

  // ---------------------------------------------------------------------
  // Single presses and scenarios
  // ---------------------------------------------------------------------

  /** Whether OK leads to the overwrite dialog, the save, or a re-prompt
      depends only on the submitted name and the server's answer, never on
      the session it is pressed in: asking twice with no change on the
      server gives the same decision. */
  lemma DecisionDependsOnlyOnNameAndList(s1: Session, s2: Session, input: string,
                                         valid: string -> bool, response: ListResponse)
    ensures Submit(s1, input, valid, response).dialog == Submit(s2, input, valid, response).dialog
    ensures Submit(s1, input, valid, response).calls[|s1.calls|..]
         == Submit(s2, input, valid, response).calls[|s2.calls|..]
  {
    var names := ListedNames(response);
    if valid(input) {
      if input in names {
        assert Submit(s1, input, valid, response).calls[|s1.calls|..] == [ListNotebooks(names, response.Failure?)];
        assert Submit(s2, input, valid, response).calls[|s2.calls|..] == [ListNotebooks(names, response.Failure?)];
      } else {
        assert Submit(s1, input, valid, response).calls[|s1.calls|..] == [ListNotebooks(names, response.Failure?), SaveNotebook(input)];
        assert Submit(s2, input, valid, response).calls[|s2.calls|..] == [ListNotebooks(names, response.Failure?), SaveNotebook(input)];
      }
    } else {
      assert Submit(s1, input, valid, response).calls[|s1.calls|..] == [];
      assert Submit(s2, input, valid, response).calls[|s2.calls|..] == [];
    }
  }

  /** Cancelling the overwrite and submitting the same name again against
      an unchanged server returns to the same overwrite dialog, with one
      more listing and no store write, and the notebook's name untouched. */
  lemma CancelThenResubmitConfirmsAgain(s: Session, valid: string -> bool, response: ListResponse)
    requires s.dialog.Confirming? && valid(s.dialog.target)
    requires s.dialog.target in ListedNames(response)
    ensures var r := Run(s, [PressCancelOverwrite, PressOk(s.dialog.target, response)], valid);
      && r.dialog == s.dialog
      && r.name == s.name
      && r.calls == s.calls + [ListNotebooks(ListedNames(response), response.Failure?)]
  {
    var t := Step(s, PressCancelOverwrite, valid);
    assert [PressCancelOverwrite, PressOk(s.dialog.target, response)][1..] == [PressOk(s.dialog.target, response)];
    assert t == OpenPrompt(s);
    var u := Step(t, PressOk(s.dialog.target, response), valid);
    assert u == Submit(t, s.dialog.target, valid, response);
    assert Run(t, [PressOk(s.dialog.target, response)], valid) == Run(u, [], valid);
    assert Run(s, [PressCancelOverwrite, PressOk(s.dialog.target, response)], valid)
        == Run(t, [PressOk(s.dialog.target, response)], valid);
  }

  /** As written, a failed name listing counts as an empty one: a valid name
      is then saved as if no notebook had it, whatever the server holds. The
      error message goes to list_loaded, which keeps nothing, so the only
      trace of the failure is the flag in the log. */
  lemma FailedListingSaves(s: Session, input: string, valid: string -> bool)
    requires s.dialog.Prompting? && valid(input)
    ensures Step(s, PressOk(input, Failure), valid)
         == s.(name := input, dialog := Idle, calls := s.calls + [ListNotebooks([], true), SaveNotebook(input)])
  {
  }

  /** Proposing "Untitled0" while the server holds "Untitled0" and "Notes"
      opens the overwrite dialog; Replace then renames the notebook and
      issues one replace and no save. */
  lemma UntitledReplaceScenario(s: Session)
    requires s.dialog.Prompting?
    ensures var response := Success([NotebookEntry("Untitled0"), NotebookEntry("Notes")]);
      && Step(s, PressOk("Untitled0", response), NameRule.TestNotebookName).dialog == Confirming("Untitled0")
      && Run(s, [PressOk("Untitled0", response), PressReplace], NameRule.TestNotebookName)
         == s.(name := "Untitled0", dialog := Idle,
               calls := s.calls + [ListNotebooks(["Untitled0", "Notes"], false), ReplaceNotebook("Untitled0")])
  {
    var response := Success([NotebookEntry("Untitled0"), NotebookEntry("Notes")]);
    NameRule.ScenarioNamesAccepted();
    assert ListedNames(response) == ["Untitled0", "Notes"];
    var t := Step(s, PressOk("Untitled0", response), NameRule.TestNotebookName);
    assert [PressOk("Untitled0", response), PressReplace][1..] == [PressReplace];
    assert Run(s, [PressOk("Untitled0", response), PressReplace], NameRule.TestNotebookName)
        == Run(t, [PressReplace], NameRule.TestNotebookName);
  }

  /** Proposing "Draft1" while the server holds only "Untitled0" saves the
      notebook under "Draft1" at once. */
  lemma DraftSaveScenario(s: Session)
    requires s.dialog.Prompting?
    ensures Step(s, PressOk("Draft1", Success([NotebookEntry("Untitled0")])), NameRule.TestNotebookName)
         == s.(name := "Draft1", dialog := Idle,
               calls := s.calls + [ListNotebooks(["Untitled0"], false), SaveNotebook("Draft1")])
  {
    var response := Success([NotebookEntry("Untitled0")]);
    NameRule.ScenarioNamesAccepted();
    assert ListedNames(response) == ["Untitled0"];
    assert "Draft1" != "Untitled0" by { assert "Draft1"[0] != "Untitled0"[0]; }
  }

  /** Proposing "My:Notes" only changes the prompt's heading: no request,
      whatever the server would have answered. */
  lemma InvalidNameScenario(s: Session, response: ListResponse)
    requires s.dialog.Prompting?
    ensures Step(s, PressOk("My:Notes", response), NameRule.TestNotebookName)
         == s.(dialog := Prompting(InvalidNameHeading, "My:Notes"))
  {
    NameRule.MyColonNotesRejected();
  }
}
