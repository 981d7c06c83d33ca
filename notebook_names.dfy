/**
 * The name list the save widget asks the notebook server for, and the
 * membership test the rename prompt runs against it
 * (IPython/frontend/html/notebook/static/js/savewidget.js, notebook_list,
 * list_loaded and is_present).
 */
module NotebookNames {

  /** One element of the JSON array the server sends for `GET notebooks`;
      only its `name` is read. */
  datatype NotebookEntry = NotebookEntry(name: string)

  /** What the blocking list request ends in: the server's array, or a
      transport or protocol error (the jQuery `error` callback). */
  datatype ListResponse = Success(data: seq<NotebookEntry>) | Failure

  /** The message the error callback hands to list_loaded. */
  const ListErrorMessage: string := "Error connecting to server."

  /** The message list_loaded starts from when it is given none. */
  const EmptyListMessage: string := "Notebook List Empty."

  /** The names, in order, that notebook_list returns for a response:
      the `name` of every entry on success, the untouched empty array on
      failure. */
  function ListedNames(response: ListResponse): (names: seq<string>)
    ensures response.Failure? ==> names == []
    ensures response.Success? ==>
      |names| == |response.data| &&
      forall i :: 0 <= i < |names| ==> names[i] == response.data[i].name
  {
    match response
    case Failure => []
    case Success(data) => seq(|data|, i requires 0 <= i < |data| => data[i].name)
  }

  /** list_loaded: picks the message to show, the one passed in when it
      is a non-empty string and the "empty list" text otherwise. The widget
      never displays or stores it, so calling it has no effect on the
      widget's state. */
  function ListLoadedMessage(msg: string): (message: string)
  {
    if msg != "" then msg else EmptyListMessage
  }

  /** notebook_list: copies `data[i].name` into a fresh array, index by
      index, on success; on failure it calls list_loaded with the error
      message and returns the array it started with, which is empty. */
  method NotebookList(response: ListResponse) returns (names: seq<string>)
    ensures response.Failure? ==> names == []
    ensures response.Success? ==>
      |names| == |response.data| &&
      forall i :: 0 <= i < |names| ==> names[i] == response.data[i].name
    ensures names == ListedNames(response)
  {
    names := [];
    match response {
      case Success(data) =>
        var len := |data|;
        for i := 0 to len
          invariant |names| == i
          invariant forall j :: 0 <= j < i ==> names[j] == data[j].name
        {
          names := names + [data[i].name];
        }
      case Failure =>
        var message := ListLoadedMessage(ListErrorMessage);
    }
  }

  /** is_present: a linear search by exact string equality. Its encoding
      is inverted: 0 means "found", 1 means "absent". */
  method IsPresent(name: string, names: seq<string>) returns (r: int)
    ensures r == 0 || r == 1
    ensures r == 0 <==> exists i :: 0 <= i < |names| && names[i] == name
    ensures r == 1 <==> name !in names
  {
    var len := |names|;
    for i := 0 to len
      invariant forall j :: 0 <= j < i ==> names[j] != name
    {
      if name == names[i] {
        return 0;
      }
    }
    return 1;
  }
}
