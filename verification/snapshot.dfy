/** The window snapshot: converting compositor clients to windows and keeping
    those the overlay should label. */
module Snapshot {
  import opened Types
  import opened Seqs

  /** A client as a window (the `From<Client>` conversion, `src/main.rs:29-40`):
      the fields are copied and the window is current exactly when it heads the
      focus history. */
  function FromClient(c: Client): Window
  {
    Window(c.workspace, c.title, c.address, c.at, c.size, c.focusHistoryId == 0)
  }

  function ToWindows(cs: seq<Client>): seq<Window>
  {
    seq(|cs|, i requires 0 <= i < |cs| => FromClient(cs[i]))
  }

  predicate OnWorkspace(workspace: int, c: Client)
  {
    c.workspace == workspace
  }

  /** The windows to label and the active workspace. Unless `ignoreWorkspace`
      is set, only clients on the active client's workspace are kept. */
  function GetWindows(active: Client, clients: seq<Client>, ignoreWorkspace: bool): (r: (seq<Window>, int))
    ensures r.1 == active.workspace
    ensures |r.0| <= |clients|
  {
    var workspace := active.workspace;
    if ignoreWorkspace then (ToWindows(clients), workspace)
    else (ToWindows(Filter(clients, c => OnWorkspace(workspace, c))), workspace)
  }

  /** With the workspace filter on, the snapshot is the in-order subsequence of
      exactly the clients on the active workspace, each converted field by field,
      and every window in it lies on that workspace. */
  lemma WorkspaceFilter(active: Client, clients: seq<Client>) returns (idx: seq<nat>)
    ensures var ws := GetWindows(active, clients, false).0;
      && |idx| == |ws|
      && StrictlyIncreasing(idx)
      && (forall k :: 0 <= k < |ws| ==>
            && idx[k] < |clients|
            && ws[k].workspace == active.workspace
            && ws[k].title == clients[idx[k]].title
            && ws[k].address == clients[idx[k]].address
            && ws[k].position == clients[idx[k]].at
            && ws[k].size == clients[idx[k]].size
            && (ws[k].isCurrent <==> clients[idx[k]].focusHistoryId == 0))
      && (forall i :: 0 <= i < |clients| ==> (clients[i].workspace == active.workspace <==> i in idx))
  {
    var p := (c: Client) => OnWorkspace(active.workspace, c);
    idx := FilterIndices(clients, p);
  }

  /** With the workspace filter off, every client becomes a window, in the
      order the compositor listed them. */
  lemma AllWorkspaces(active: Client, clients: seq<Client>)
    ensures var ws := GetWindows(active, clients, true).0;
      && |ws| == |clients|
      && forall i :: 0 <= i < |clients| ==>
           && ws[i].workspace == clients[i].workspace
           && ws[i].title == clients[i].title
           && ws[i].address == clients[i].address
           && ws[i].position == clients[i].at
           && ws[i].size == clients[i].size
           && (ws[i].isCurrent <==> clients[i].focusHistoryId == 0)
  {
  }
}
