# IPython notebook save widget: rename and overwrite logic

This project models the decision logic of the IPython notebook's save widget
(`IPython/frontend/html/notebook/static/js/savewidget.js`). The widget shows
the notebook's name. Clicking the name opens a rename prompt. OK on that
prompt checks the proposed name with the notebook's name validator. It then
fetches the list of notebook names from the server with a blocking request,
and branches:

- rejected name: the prompt stays open with an error heading;
- accepted name already on the server: an overwrite confirmation opens;
- accepted name not on the server: the notebook is renamed and saved.

Replace on the confirmation renames the notebook and replaces the stored
one. Cancel there reopens the rename prompt, filled with the current name.
The widget also sets its status text when a save fails.

Modules:

- `NotebookNames` (`notebook_names.dfy`) covers `notebook_list` and
  `list_loaded`. It also has `is_present`, a linear search whose result is
  inverted: 0 means found, 1 means absent.
- `NameRule` (`name_rule.dfy`) is the name rule. The real validator,
  `IPython.notebook.test_notebook_name`, is not part of this model. The OK
  handler `RenameOk`, `Dispatch` and `RunEvents` take it as a parameter
  `valid: string -> bool`; the other handlers never call it.
  `NameRule.TestNotebookName` is an ASSUMED definition, read off the
  prompt's error text: at least one character, and none of `:`, `/`, `\`.
  Only the scenario lemmas use it.
- `RenameProtocol` (`rename_protocol.dfy`) holds the rename and overwrite
  dialogs as a state machine on values. `Step` makes one transition per
  button press and `Run` folds a sequence of presses. The session records
  the notebook name, the open dialog (`Idle`, `Prompting(heading, input)`
  or `Confirming(target)`), the save status, and a log of the requests the
  widget causes:
  - `ListNotebooks(listed, failed)` is the name listing, with the names it
    yielded and whether the request failed;
  - `SaveNotebook(n)` is `save_notebook()` with the notebook named `n`;
  - `ReplaceNotebook(n)` is `replace_notebook()` with the notebook named `n`.

  The two dialogs call each other back in the source. Here that is dialog
  state, not recursion.
- `SaveWidgetModel` (`save_widget.dfy`) has the class `SaveWidget`. Its
  fields are the four parts of the session, and each button handler is a
  method that updates them in place. The OK handler runs the `NotebookList`
  and `IsPresent` loops. Every handler's postcondition fixes every field
  exactly as the matching case of `Step` does. `Dispatch` routes an event
  to its handler and is proved to make exactly that `Step`. `RunEvents`
  handles a sequence of events and is proved to reach `Run`, so the lemmas
  about runs hold of the object.

The main result is `RenameProtocol.EveryRunIsSafe`. It holds for any
sequence of button presses, dialog dismissals (Escape or the title-bar
icon) and save-failed notifications, and any server answers, starting from
a new widget:

- the notebook's name is the one the last save or replace request carried
  (the request may still fail on the server; the model does not know);
- that name is either the first name or one the validator accepted;
- every save comes right after a name listing that lacked the name;
- every replace comes right after a name listing that held it;
- a failed listing is logged as failed and with no names, so a save right
  after one is visibly a save made without knowing the server's names.

A failed name listing does not block the rename. The error callback passes
its message to `list_loaded`, which throws it away, and `notebook_list`
returns its empty array. So every accepted name then counts as absent and is
saved, even if a notebook of that name exists
(`RenameProtocol.FailedListingSaves`). One could argue a failed listing
ought to stop the rename. The model follows the code and has no error
branch here, because the code has none. The code also has no "busy" guard
and no time-outs on requests, so neither is modelled.

## Model

| member | source | states |
|---|---|---|
| NotebookNames.ListedNames | IPython/frontend/html/notebook/static/js/savewidget.js:144-165 | the names notebook_list yields: on success exactly as many as the server's entries, `names[i]` the `name` of entry `i`, in order; on failure the empty list |
| NotebookNames.NotebookList | IPython/frontend/html/notebook/static/js/savewidget.js:144-165 | the copying loop returns, on success, one name per entry in the entry's order (same length, `names[i] == data[i].name`); on failure it hands the error message to list_loaded and returns the untouched empty array. list_loaded (`ListLoadedMessage`, an unlisted helper) keeps nothing: `NotebookList` changes no state, and `RenameProtocol.FailedListingSaves` shows the failure leaves only the logged flag |
| NotebookNames.IsPresent | IPython/frontend/html/notebook/static/js/savewidget.js:174-182 | returns 0 exactly when some element equals the name by exact comparison and 1 exactly when none does (so 1 for an empty list); the list is a value and cannot be changed |
| NameRule.AcceptedExactly | IPython/frontend/html/notebook/static/js/savewidget.js:84-86 | under the assumed rule in the error text, a name is accepted exactly when it is non-empty and holds none of `:`, `/`, `\` |
| NameRule.ForbiddenCharRejected | IPython/frontend/html/notebook/static/js/savewidget.js:84-86 | under the assumed rule, any name holding a forbidden character is rejected |
| NameRule.MyColonNotesRejected | IPython/frontend/html/notebook/static/js/savewidget.js:82-87 | under the assumed rule, "My:Notes" is rejected |
| NameRule.ScenarioNamesAccepted | IPython/frontend/html/notebook/static/js/savewidget.js:84-86 | under the assumed rule, "Untitled0" and "Draft1" are accepted |
| RenameProtocol.StepKeepsInv | IPython/frontend/html/notebook/static/js/savewidget.js:80-139 | every button press keeps four facts: the notebook's name is the one the last save or replace request carried; every such request's name passed the validator; every save or replace directly follows a listing that lacked or held the name, and a failed listing is logged with no names; the overwrite dialog is open only for a validated name in the last listing |
| RenameProtocol.RunKeepsInv | IPython/frontend/html/notebook/static/js/savewidget.js:60-142 | the same invariant holds after any sequence of clicks and server answers |
| RenameProtocol.RunSnoc | IPython/frontend/html/notebook/static/js/savewidget.js:60-142 | handling one more event after a run is one more step of the protocol |
| RenameProtocol.RunExtendsLog | IPython/frontend/html/notebook/static/js/savewidget.js:80-139 | no handler takes back a request: the log before a run is a prefix of the log after it |
| RenameProtocol.LastWrittenValid | IPython/frontend/html/notebook/static/js/savewidget.js:94-97 | if every save or replace request carried a validated name, the name the last one carried is validated, or is the first name if there was no such request |
| RenameProtocol.EveryRunIsSafe | IPython/frontend/html/notebook/static/js/savewidget.js:60-142 | from a new widget, after any run: the name is the one the last save or replace request carried; it is the first name or a validated one; there is no save without a listing that lacked the name and no replace without one that held it |
| RenameProtocol.DecisionDependsOnlyOnNameAndList | IPython/frontend/html/notebook/static/js/savewidget.js:80-99 | the outcome of OK (next dialog and the requests issued) depends only on the submitted name and the server's answer, so two submissions against an unchanged server decide alike |
| RenameProtocol.CancelThenResubmitConfirmsAgain | IPython/frontend/html/notebook/static/js/savewidget.js:136-138 | Cancel on the overwrite dialog reopens the prompt on the current name; resubmitting the same name against an unchanged server opens the same overwrite dialog again, with one more listing and no store write |
| RenameProtocol.FailedListingSaves | IPython/frontend/html/notebook/static/js/savewidget.js:144-165 | as written, a failed listing yields no names, so OK with a validated name logs an empty listing flagged as failed and one save and renames the notebook, whatever the server holds |
| RenameProtocol.UntitledReplaceScenario | IPython/frontend/html/notebook/static/js/savewidget.js:89-92 | "Untitled0" against a server holding "Untitled0" and "Notes" opens the overwrite dialog; Replace then renames to "Untitled0" with one replace and no save |
| RenameProtocol.DraftSaveScenario | IPython/frontend/html/notebook/static/js/savewidget.js:94-97 | "Draft1" against a server holding only "Untitled0" renames to "Draft1" and issues one listing and one save |
| RenameProtocol.InvalidNameScenario | IPython/frontend/html/notebook/static/js/savewidget.js:82-87 | "My:Notes" only switches the prompt to the error heading, whatever the server would answer: no listing, no store call |
| SaveWidgetModel.SaveWidget.constructor | IPython/frontend/html/notebook/static/js/savewidget.js:16-23 | a new widget has no dialog open, an empty request log and the notebook's name |
| SaveWidgetModel.SaveWidget.RenameNotebook | IPython/frontend/html/notebook/static/js/savewidget.js:60-71 | opens the prompt with the standard heading and the current name in its field; nothing else changes |
| SaveWidgetModel.SaveWidget.RenameOk | IPython/frontend/html/notebook/static/js/savewidget.js:80-100 | the transition `Step` gives. A rejected name shows the error heading and issues no request. An accepted name that is present issues only the listing, keeps the name and opens the overwrite dialog. An accepted name that is absent becomes the name, with one listing, one save and no replace, and the prompt closes |
| SaveWidgetModel.SaveWidget.RenameCancel | IPython/frontend/html/notebook/static/js/savewidget.js:101-103 | closes the prompt; name, log and status unchanged |
| SaveWidgetModel.SaveWidget.OverwriteReplace | IPython/frontend/html/notebook/static/js/savewidget.js:131-135 | renames the notebook to the confirmed name, appends exactly one replace (no save) and closes the dialog |
| SaveWidgetModel.SaveWidget.OverwriteCancel | IPython/frontend/html/notebook/static/js/savewidget.js:136-139 | reopens the rename prompt holding the current, unchanged name, not the rejected one; name, log and status unchanged |
| SaveWidgetModel.SaveWidget.DismissDialog | IPython/frontend/html/notebook/static/js/savewidget.js:73-129 | Escape or the title-bar icon runs only the `close` callback of the rename prompt (:73-78) or of the overwrite dialog (:124-129): the dialog closes and name, log and status are unchanged; from the overwrite dialog this goes straight to no dialog, without reopening the prompt |
| SaveWidgetModel.SaveWidget.Dispatch | IPython/frontend/html/notebook/static/js/savewidget.js:79-140 | through the name click (:36-38), the `buttons` maps of the two dialogs (:79-104, :130-140) and the save-failed subscription (:54-56), an event reaches the handler of its button when that button is on screen, and the object then makes exactly the `Step` of that event |
| SaveWidgetModel.SaveWidget.RunEvents | IPython/frontend/html/notebook/static/js/savewidget.js:60-142 | handling a sequence of events in order leaves the object in the session `Run` gives |
| SaveWidgetModel.SaveWidget.NotebookSaveFailed | IPython/frontend/html/notebook/static/js/savewidget.js:54-56 | sets the status text to "Last Save Failed!" and changes nothing else |

## Left out

- Styling, hover classes and building and tearing down the jQuery dialogs (savewidget.js:26-43, 62-79, 105-114, 119-130) are presentation only. So is the overwrite dialog's title.
- The ENTER-key shortcut that clicks OK (savewidget.js:108-112) is event plumbing. It does what `RenameOk` does.
- The AJAX transport, the URL and the blocking `async: false` flag (savewidget.js:147-152, 162-163) are not modelled. The server's answer is an input, `Success(entries)` or `Failure`. Entries carry only the `name` field that is read.
- The `notebook_loaded` and `notebook_saved` subscriptions (savewidget.js:44-53) are left out. They call `set_last_saved`, which formats a `Date`, and `update_notebook_name` and `update_document_title`, which write the page and `document.title`. These are browser and library calls.
- The validator's body, and `save_notebook` and `replace_notebook`, live in another file. They are a parameter and logged requests. Whether a save succeeds on the server is not modelled; the widget only learns of it through the status event.
- The model keeps one open dialog at a time. The source's dialogs are modal, so the name cannot be clicked while one is open. A `RenameNotebook` call replaces whatever dialog the model had open.
- SaveWidgetModel.SaveWidget.constructor: the status text starts empty. The page markup that really holds it is not part of this model.
- SaveWidgetModel.SaveWidget.RenameNotebook: its contract and those of `RenameCancel`, `OverwriteReplace`, `OverwriteCancel`, `DismissDialog` and `NotebookSaveFailed` fix every field but do not name `Step`, because `Step` would need a validator they never use. `Dispatch` names `Step` for every event.
