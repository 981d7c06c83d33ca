/**
 * The save widget as an object whose button handlers change state in place
 * (savewidget.js:60-142 and :54-56). The fields hold what the handlers
 * change: the notebook's name (IPython.notebook's, set through
 * set_notebook_name), the open dialog, the requests issued so far, and the
 * save-status text. Every handler fixes every field as the matching case of
 * RenameProtocol.Step does; `Dispatch` routes an event to its handler and
 * is proved to make exactly that step, and `RunEvents` applies a sequence
 * of events and is proved to reach `Run`, so the lemmas about runs hold of
 * the object.
 */
module SaveWidgetModel {
  import opened NotebookNames
  import opened RenameProtocol

  class SaveWidget {
    var name: string
    var dialog: Dialog
    var calls: seq<StoreCall>
    var status: string

    /** The fields as one value. */
    function State(): (s: Session)
      reads this
    {
      Session(name, dialog, calls, status)
    }

    /** A widget on a notebook named `initial`, with no dialog open. */
    constructor (initial: string)
      ensures State() == Start(initial)
    {
      name := initial;
      dialog := Idle;
      calls := [];
      status := "";
    }

    /** rename_notebook, run by a click on the name: opens the prompt with
        the standard heading, its input field holding the current name. */
    method RenameNotebook()
      modifies this
      ensures dialog == Prompting(PromptHeading, name)
      ensures name == old(name) && calls == old(calls) && status == old(status)
    {
      dialog := Prompting(PromptHeading, name);
    }

    /** The prompt's OK button, with `input` in the text field, `valid` the
        notebook's name check, and `response` the server's answer to the
        name listing (consulted only when the name is accepted). */
    method RenameOk(input: string, valid: string -> bool, response: ListResponse)
      requires dialog.Prompting?
      modifies this
      ensures State() == Step(old(State()), PressOk(input, response), valid)
      ensures status == old(status)
      ensures !valid(input) ==>
        && dialog == Prompting(InvalidNameHeading, input)
        && name == old(name) && calls == old(calls)
      ensures valid(input) && input in ListedNames(response) ==>
        && dialog == Confirming(input)
        && name == old(name)
        && calls == old(calls) + [ListNotebooks(ListedNames(response), response.Failure?)]
      ensures valid(input) && input !in ListedNames(response) ==>
        && dialog == Idle
        && name == input
        && calls == old(calls) + [ListNotebooks(ListedNames(response), response.Failure?), SaveNotebook(input)]
    {
      if !valid(input) {
        dialog := Prompting(InvalidNameHeading, input);
      } else {
        var names := NotebookList(response);
        calls := calls + [ListNotebooks(names, response.Failure?)];
        var present := IsPresent(input, names);
        if present == 0 {
          dialog := Confirming(input);
        } else {
          name := input;
          calls := calls + [SaveNotebook(name)];
          dialog := Idle;
        }
      }
    }

    /** The prompt's Cancel button: closes it and changes nothing else. */
    method RenameCancel()
      requires dialog.Prompting?
      modifies this
      ensures dialog == Idle
      ensures name == old(name) && calls == old(calls) && status == old(status)
    {
      dialog := Idle;
    }

    /** The overwrite dialog's Replace button: renames the notebook to the
        name it was opened for and issues one replace. */
    method OverwriteReplace()
      requires dialog.Confirming?
      modifies this
      ensures dialog == Idle
      ensures name == old(dialog.target)
      ensures calls == old(calls) + [ReplaceNotebook(old(dialog.target))]
      ensures status == old(status)
    {
      name := dialog.target;
      calls := calls + [ReplaceNotebook(name)];
      dialog := Idle;
    }

    /** The overwrite dialog's Cancel button: reopens the rename prompt
        holding the notebook's current name, not the rejected one. */
    method OverwriteCancel()
      requires dialog.Confirming?
      modifies this
      ensures dialog == Prompting(PromptHeading, old(name))
      ensures name == old(name) && calls == old(calls) && status == old(status)
    {
      dialog := Idle;
      RenameNotebook();
    }

    /** Escape or the title-bar icon: the open dialog's `close` callback
        removes it, and no button handler runs. From the overwrite dialog
        this does NOT reopen the rename prompt, unlike its Cancel button. */
    method DismissDialog()
      modifies this
      ensures dialog == Idle
      ensures name == old(name) && calls == old(calls) && status == old(status)
    {
      dialog := Idle;
    }

    /** The `notebook_save_failed` notification: sets the status text. */
    method NotebookSaveFailed()
      modifies this
      ensures status == SaveFailedStatus
      ensures name == old(name) && dialog == old(dialog) && calls == old(calls)
    {
      status := SaveFailedStatus;
    }

    /** Routes an event to the handler of the button it presses, when that
        button is on screen, and is then exactly one step of the protocol. */
    method Dispatch(e: Event, valid: string -> bool)
      modifies this
      ensures State() == Step(old(State()), e, valid)
    {
      match e {
        case ClickName => RenameNotebook();
        case PressOk(input, response) =>
          if dialog.Prompting? { RenameOk(input, valid, response); }
        case PressCancelRename =>
          if dialog.Prompting? { RenameCancel(); }
        case PressReplace =>
          if dialog.Confirming? { OverwriteReplace(); }
        case PressCancelOverwrite =>
          if dialog.Confirming? { OverwriteCancel(); }
        case Dismiss => DismissDialog();
        case SaveFailed => NotebookSaveFailed();
      }
    }

    /** Handles a sequence of events in order; the object ends in the
        session `Run` gives, so `EveryRunIsSafe` applies to it. */
    method RunEvents(events: seq<Event>, valid: string -> bool)
      modifies this
      ensures State() == Run(old(State()), events, valid)
    {
      for i := 0 to |events|
        invariant State() == Run(old(State()), events[..i], valid)
      {
        assert events[..i + 1] == events[..i] + [events[i]];
        RunSnoc(old(State()), events[..i], events[i], valid);
        Dispatch(events[i], valid);
      }
      assert events[..|events|] == events;
    }
  }
}
