/**
 * The playlist sidebar: deleting and adding playlists optimistically (local
 * change first, then the server call, then a refresh from the server), each
 * guarded against double clicks by an in-flight flag, and the sidebar's part
 * in the two-panel navigator.
 */
module Sidebar {
  import opened Library
  import opened Wrappers
  import PanelNavigation

  /** What the sidebar asks of the router, the local playlist store and the server, in order. */
  datatype Action =
    | Navigate(path: string)           // `router.push`
    | Prefetch(path: string)           // `router.prefetch`
    | RemoveLocally(id: PlaylistId)    // the optimistic `deletePlaylist`
    | InsertLocally(playlist: Playlist)  // the optimistic `updatePlaylist`
    | ServerDelete(id: PlaylistId)     // `deletePlaylistAction`
    | ServerCreate(id: PlaylistId, name: string)  // `createPlaylistAction`
    | Refresh                          // `router.refresh`

  /** How a server call ended: a normal result, a result carrying an error, or a thrown error. */
  datatype Outcome = Succeeded | ErrorResult | Threw

  /** The page of playlist `id`. */
  function PlaylistPath(id: PlaylistId): string {
    "/p/" + id
  }

  /** `a` occurs in `trace`, and strictly before every occurrence of `b`. */
  predicate Precedes(trace: seq<Action>, a: Action, b: Action) {
    exists i :: 0 <= i < |trace| && trace[i] == a && forall j :: 0 <= j <= i ==> trace[j] != b
  }

  // ---------------------------------------------------------------------------
  // Deleting a playlist
  // ---------------------------------------------------------------------------

  /**
   * The actions of `handleDeletePlaylist(id)` that precede the server's
   * answer: leave the playlist's own page if it is open, remove the playlist
   * locally, call the server.
   */
  function DeleteRequest(id: PlaylistId, pathname: string): seq<Action> {
    (if pathname == PlaylistPath(id) then [Navigate("/")] else [])
    + [RemoveLocally(id), ServerDelete(id)]
  }

  /**
   * One click on a row's delete item, through to the server's answer: the new
   * `isDeleting` flag and the actions taken. The item is disabled in
   * production and a click while the row is deleting is ignored.
   */
  function ClickDelete(production: bool, isDeleting: bool, id: PlaylistId, pathname: string, outcome: Outcome): (r: (bool, seq<Action>))
    ensures production || isDeleting ==> r == (isDeleting, [])
    ensures !production && !isDeleting ==>
      && !r.0 && |r.1| > 0
      && r.1[|r.1| - 1] == Refresh
      && multiset(r.1)[ServerDelete(id)] == 1
      && (Navigate("/") in r.1 <==> pathname == PlaylistPath(id))
  {
    if production || isDeleting then (isDeleting, [])
    else
      // Every outcome (a result, an error result, a thrown error) ends with a refresh and clears the flag.
      var afterAnswer := match outcome
        case Succeeded => [Refresh]
        case ErrorResult => [Refresh]
        case Threw => [Refresh];
      (false, DeleteRequest(id, pathname) + afterAnswer)
  }

  /** A delete click while the row is already deleting changes nothing and calls nothing. */
  lemma DeleteIgnoredWhileDeleting(production: bool, id: PlaylistId, pathname: string, outcome: Outcome)
    ensures ClickDelete(production, true, id, pathname, outcome) == (true, [])
  {
  }

  /**
   * The delete ordering: navigation home (when on the playlist's page)
   * before the local removal, the local removal before the server call, the
   * server call before the refresh; and the flag is cleared whatever the
   * outcome.
   */
  lemma {:induction false} DeleteOrdering(id: PlaylistId, pathname: string, outcome: Outcome)
    ensures var (deleting, trace) := ClickDelete(false, false, id, pathname, outcome);
      && !deleting
      && (pathname == PlaylistPath(id) ==> Precedes(trace, Navigate("/"), RemoveLocally(id)))
      && Precedes(trace, RemoveLocally(id), ServerDelete(id))
      && Precedes(trace, ServerDelete(id), Refresh)
  {
    var trace := ClickDelete(false, false, id, pathname, outcome).1;
    var k := if pathname == PlaylistPath(id) then 1 else 0;
    assert trace[k] == RemoveLocally(id) && trace[k + 1] == ServerDelete(id) && trace[k + 2] == Refresh;
    assert |trace| == k + 3;
    if k == 1 {
      assert trace[0] == Navigate("/");
    }
  }

  // ---------------------------------------------------------------------------
  // Adding a playlist
  // ---------------------------------------------------------------------------

  const NewPlaylistName := "New Playlist"

  /** The playlist inserted locally: the fresh id, the default name, an empty cover, both timestamps now. */
  function NewPlaylist(id: PlaylistId, now: Timestamp): (p: Playlist)
    ensures p.id == id && p.name == NewPlaylistName && p.coverUrl == Some("")
    ensures p.createdAt == now && p.updatedAt == now
  {
    Playlist(id, NewPlaylistName, Some(""), now, now)
  }

  /**
   * `addPlaylistAction`, with `freshId` standing for the new UUID and `now`
   * for the clock: the new `isAdding` flag and the actions taken. The button
   * is disabled in production and a submit while adding is ignored.
   */
  function ClickAdd(production: bool, isAdding: bool, freshId: PlaylistId, now: Timestamp, outcome: Outcome): (r: (bool, seq<Action>))
    ensures production || isAdding ==> r == (isAdding, [])
    ensures !production && !isAdding ==>
      && !r.0 && |r.1| > 0
      && r.1[0] == InsertLocally(NewPlaylist(freshId, now))
      && r.1[|r.1| - 1] == Refresh
      && Navigate(PlaylistPath(freshId)) in r.1
      && multiset(r.1)[ServerCreate(freshId, NewPlaylistName)] == 1
  {
    if production || isAdding then (isAdding, [])
    else
      var path := PlaylistPath(freshId);
      var beforeAnswer := [InsertLocally(NewPlaylist(freshId, now)), Prefetch(path), Navigate(path), ServerCreate(freshId, NewPlaylistName)];
      // A returned error and a thrown error are both followed by a refresh.
      var afterAnswer := match outcome
        case Succeeded => [Refresh]
        case ErrorResult => [Refresh]
        case Threw => [Refresh];
      (false, beforeAnswer + afterAnswer)
  }

  /** An add while one is in flight changes nothing and calls nothing. */
  lemma AddIgnoredWhileAdding(production: bool, freshId: PlaylistId, now: Timestamp, outcome: Outcome)
    ensures ClickAdd(production, true, freshId, now, outcome) == (true, [])
  {
  }

  /** The new playlist is inserted locally, then opened, then created on the server, then refreshed. */
  lemma {:induction false} AddOrdering(freshId: PlaylistId, now: Timestamp, outcome: Outcome)
    ensures var (adding, trace) := ClickAdd(false, false, freshId, now, outcome);
      var p := NewPlaylist(freshId, now);
      && !adding
      && Precedes(trace, InsertLocally(p), ServerCreate(freshId, NewPlaylistName))
      && Precedes(trace, Navigate(PlaylistPath(freshId)), ServerCreate(freshId, NewPlaylistName))
      && Precedes(trace, ServerCreate(freshId, NewPlaylistName), Refresh)
  {
    var trace := ClickAdd(false, false, freshId, now, outcome).1;
    var p := NewPlaylist(freshId, now);
    assert trace[0] == InsertLocally(p) && trace[2] == Navigate(PlaylistPath(freshId));
    assert trace[3] == ServerCreate(freshId, NewPlaylistName) && trace[4] == Refresh;
    assert |trace| == 5;
  }

  // ---------------------------------------------------------------------------
  // The sidebar as a navigator panel
  // ---------------------------------------------------------------------------

  /** Mounting the sidebar registers its row container. */
  function Mount(n: PanelNavigation.Navigator): (r: PanelNavigation.Navigator)
    ensures PanelNavigation.Sidebar in r.registered
    ensures r.activePanel == n.activePanel
  {
    PanelNavigation.Register(n, PanelNavigation.Sidebar)
  }

  /** A click anywhere in the sidebar makes it the active panel. */
  function Click(n: PanelNavigation.Navigator): (r: PanelNavigation.Navigator)
    ensures r.activePanel == PanelNavigation.Sidebar
    ensures r.registered == n.registered
  {
    PanelNavigation.SetActive(n, PanelNavigation.Sidebar)
  }

  /**
   * After mounting, the sidebar's keys reach the navigator: with its
   * container shown, `j` from no focused row focuses the first row.
   */
  lemma MountedSidebarTakesKeys(n: PanelNavigation.Navigator, rows: nat)
    requires rows > 0
    ensures var v := PanelNavigation.View(Some(rows), None, PanelNavigation.Elsewhere);
      PanelNavigation.HandleKey(Mount(n), v, "j", PanelNavigation.Sidebar).focus == PanelNavigation.Row(PanelNavigation.Sidebar, 0)
  {
    var v := PanelNavigation.View(Some(rows), None, PanelNavigation.Elsewhere);
    PanelNavigation.DownKeyMovesForward(Mount(n), v, "j", PanelNavigation.Sidebar);
  }
}
