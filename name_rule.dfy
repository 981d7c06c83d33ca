/**
 * The notebook-name rule. The real check, IPython.notebook.test_notebook_name,
 * is not part of this model: the widget only calls it. The rename handlers
 * therefore take the validator as a parameter. What follows is an ASSUMED
 * definition, read off the error text the prompt shows when the check fails
 * (savewidget.js:84-86): at least one character, and none of `:`, `/`, `\`.
 */
module NameRule {

  /** The characters the error text says a name may not contain. */
  const ForbiddenChars: set<char> := {':', '/', '\\'}

  /** Assumed rule of test_notebook_name. */
  predicate TestNotebookName(name: string)
  {
    |name| >= 1 && forall i :: 0 <= i < |name| ==> name[i] !in ForbiddenChars
  }

  /** A name holding a forbidden character at some position is rejected. */
  lemma ForbiddenCharRejected(name: string, i: nat)
    requires i < |name| && name[i] in ForbiddenChars
    ensures !TestNotebookName(name)
  {
  }

  /** The empty name is rejected, and every other name without a forbidden
      character is accepted. */
  lemma AcceptedExactly(name: string)
    ensures TestNotebookName(name) <==>
      name != [] && ':' !in name && '/' !in name && '\\' !in name
  {
    if name != [] && ':' !in name && '/' !in name && '\\' !in name {
      forall i | 0 <= i < |name| ensures name[i] !in ForbiddenChars {
        assert name[i] in name;
      }
    }
  }

  /** "My:Notes" is rejected before any request is made. */
  lemma MyColonNotesRejected()
    ensures !TestNotebookName("My:Notes")
  {
    ForbiddenCharRejected("My:Notes", 2);
  }

  /** The names that appear in the rename scenarios are accepted. */
  lemma ScenarioNamesAccepted()
    ensures TestNotebookName("Untitled0") && TestNotebookName("Draft1")
  {
    AcceptedExactly("Untitled0");
    AcceptedExactly("Draft1");
  }
}
