/**
 * The server side of the library: the songs, playlists and playlist-song
 * tables held in memory, the server actions that change them (each with its
 * production guard and input checks) and the queries that read them.
 * Database, blob-store and cache calls become plain updates of the tables;
 * the URL a blob upload returns is a parameter.
 */
module Store {
  import opened Wrappers
  import opened Library
  import Text
  import Sorting
  import NowPlaying

  /** The three tables; each holds its rows in storage order. */
  datatype Db = Db(songs: seq<Song>, playlists: seq<Playlist>, links: seq<PlaylistSong>)

  /** A server action's answer: success, success with the URL of an uploaded file, or an error message. */
  datatype Reply = Done | DoneWithUrl(url: string) | Failed(message: string)

  const NotInProduction := "Not available in production"

  // ---------------------------------------------------------------------------
  // Rows
  // ---------------------------------------------------------------------------

  /** The rows of `s` that `keep` accepts, in their order. */
  function Filter<T(!new)>(s: seq<T>, keep: T -> bool): (r: seq<T>)
    ensures |r| <= |s|
    ensures forall x :: x in r <==> x in s && keep(x)
    ensures (forall i :: 0 <= i < |s| ==> keep(s[i])) ==> r == s
  {
    if |s| == 0 then []
    else
      assert s == [s[0]] + s[1..];
      (if keep(s[0]) then [s[0]] else []) + Filter(s[1..], keep)
  }

  predicate HasSong(db: Db, id: SongId) {
    exists i :: 0 <= i < |db.songs| && db.songs[i].id == id
  }

  predicate HasPlaylist(db: Db, id: PlaylistId) {
    exists i :: 0 <= i < |db.playlists| && db.playlists[i].id == id
  }

  predicate Links(l: PlaylistSong, playlistId: PlaylistId, songId: SongId) {
    l.playlistId == playlistId && l.songId == songId
  }

  /** Some row pairs the playlist with the song. */
  predicate HasPair(links: seq<PlaylistSong>, playlistId: PlaylistId, songId: SongId) {
    exists i :: 0 <= i < |links| && Links(links[i], playlistId, songId)
  }

  /** No (playlist, song) pair is stored twice. */
  predicate NoDuplicatePairs(links: seq<PlaylistSong>) {
    forall i, j :: 0 <= i < j < |links| ==> !Links(links[j], links[i].playlistId, links[i].songId)
  }

  /** Every playlist-song row names a stored playlist and a stored song. */
  predicate ForeignKeysHold(db: Db) {
    forall l :: l in db.links ==> HasPlaylist(db, l.playlistId) && HasSong(db, l.songId)
  }

  predicate Consistent(db: Db) {
    ForeignKeysHold(db) && NoDuplicatePairs(db.links)
  }

  // ---------------------------------------------------------------------------
  // Adding a song to a playlist
  // ---------------------------------------------------------------------------

  /** `MAX(order)` over the playlist's rows; `None` (SQL `NULL`) when it has none. */
  function MaxOrder(links: seq<PlaylistSong>, playlistId: PlaylistId): (r: Option<int>)
    ensures r.None? <==> forall i :: 0 <= i < |links| ==> links[i].playlistId != playlistId
    ensures r.Some? ==> exists i :: 0 <= i < |links| && links[i].playlistId == playlistId && links[i].order == r.value
    ensures r.Some? ==> forall i :: 0 <= i < |links| && links[i].playlistId == playlistId ==> links[i].order <= r.value
  {
    if |links| == 0 then None
    else
      var rest := MaxOrder(links[..|links| - 1], playlistId);
      var last := links[|links| - 1];
      if last.playlistId != playlistId then rest
      else if rest.Some? && rest.value >= last.order then rest
      else Some(last.order)
  }

  /** The order a song appended to the playlist gets: one past the largest, or 1 for an empty playlist. */
  function NextOrder(links: seq<PlaylistSong>, playlistId: PlaylistId): int {
    MaxOrder(links, playlistId).GetOr(0) + 1
  }

  /**
   * `addToPlaylistAction`: a pair already present is refused; otherwise a row
   * is appended with the next order. The insert fails, leaving the tables as
   * they were, when the playlist or the song does not exist.
   */
  function AddToPlaylist(db: Db, playlistId: PlaylistId, songId: SongId): (r: (Db, Reply))
    ensures HasPair(db.links, playlistId, songId) ==> r == (db, Failed("Song is already in the playlist"))
    ensures r.1.Failed? ==> r.0 == db
    ensures r.1 == Done <==> !HasPair(db.links, playlistId, songId) && HasPlaylist(db, playlistId) && HasSong(db, songId)
    ensures r.1 == Done ==> r.0 == db.(links := db.links + [PlaylistSong(playlistId, songId, NextOrder(db.links, playlistId))])
    ensures Consistent(db) ==> Consistent(r.0)
  {
    if HasPair(db.links, playlistId, songId) then (db, Failed("Song is already in the playlist"))
    else if !HasPlaylist(db, playlistId) || !HasSong(db, songId) then (db, Failed("Failed to add song to playlist"))
    else
      var added := db.(links := db.links + [PlaylistSong(playlistId, songId, NextOrder(db.links, playlistId))]);
      assert forall l :: l in added.links ==> l in db.links || Links(l, playlistId, songId);
      (added, Done)
  }

  /**
   * The new row's order comes after every other row of the same playlist:
   * it is one past the largest existing order, or 1 when the playlist is empty.
   */
  lemma AddedRowComesLast(db: Db, playlistId: PlaylistId, songId: SongId)
    requires AddToPlaylist(db, playlistId, songId).1 == Done
    ensures var links := AddToPlaylist(db, playlistId, songId).0.links;
      var row := links[|links| - 1];
      && row.playlistId == playlistId && row.songId == songId
      && (forall i :: 0 <= i < |db.links| && db.links[i].playlistId == playlistId ==> db.links[i].order < row.order)
      && ((forall i :: 0 <= i < |db.links| ==> db.links[i].playlistId != playlistId) ==> row.order == 1)
      && ((exists i :: 0 <= i < |db.links| && db.links[i].playlistId == playlistId) ==>
            exists i :: 0 <= i < |db.links| && db.links[i].playlistId == playlistId && db.links[i].order == row.order - 1)
  {
  }

  /** Adding the same song twice: the second add is refused and changes nothing. */
  lemma AddTwiceRefused(db: Db, playlistId: PlaylistId, songId: SongId)
    requires AddToPlaylist(db, playlistId, songId).1 == Done
    ensures var db1 := AddToPlaylist(db, playlistId, songId).0;
      AddToPlaylist(db1, playlistId, songId) == (db1, Failed("Song is already in the playlist"))
  {
    var db1 := AddToPlaylist(db, playlistId, songId).0;
    assert Links(db1.links[|db1.links| - 1], playlistId, songId);
  }

  // ---------------------------------------------------------------------------
  // Removing songs and playlists
  // ---------------------------------------------------------------------------

  /** `removeSongFromPlaylist`: deletes exactly the rows pairing the playlist with the song. */
  function RemoveSongFromPlaylist(db: Db, playlistId: PlaylistId, songId: SongId): (r: Db)
    ensures r.songs == db.songs && r.playlists == db.playlists
    ensures !HasPair(r.links, playlistId, songId)
    ensures forall l :: l in r.links <==> l in db.links && !Links(l, playlistId, songId)
    ensures Consistent(db) ==> Consistent(r)
  {
    var kept := Filter(db.links, (l: PlaylistSong) => !Links(l, playlistId, songId));
    FilterKeepsNoDuplicates(db.links, (l: PlaylistSong) => !Links(l, playlistId, songId));
    assert forall i :: 0 <= i < |kept| ==> kept[i] in kept;
    db.(links := kept)
  }

  lemma {:induction false} FilterKeepsNoDuplicates(links: seq<PlaylistSong>, keep: PlaylistSong -> bool)
    ensures NoDuplicatePairs(links) ==> NoDuplicatePairs(Filter(links, keep))
  {
    if NoDuplicatePairs(links) && |links| > 0 {
      var tail := links[1..];
      assert NoDuplicatePairs(tail) by {
        forall i, j | 0 <= i < j < |tail|
          ensures !Links(tail[j], tail[i].playlistId, tail[i].songId)
        {
          assert tail[i] == links[i + 1] && tail[j] == links[j + 1];
        }
      }
      FilterKeepsNoDuplicates(tail, keep);
      var rest := Filter(tail, keep);
      if keep(links[0]) {
        var r := [links[0]] + rest;
        forall i, j | 0 <= i < j < |r|
          ensures !Links(r[j], r[i].playlistId, r[i].songId)
        {
          if i == 0 {
            assert r[j] in tail;
            var k :| 0 <= k < |tail| && tail[k] == r[j];
            assert links[k + 1] == r[j];
          } else {
            assert r[i] == rest[i - 1] && r[j] == rest[j - 1];
          }
        }
      }
    }
  }

  /** Removing the song just added restores the playlist-song table. */
  lemma RemoveUndoesAdd(db: Db, playlistId: PlaylistId, songId: SongId)
    requires AddToPlaylist(db, playlistId, songId).1 == Done
    ensures RemoveSongFromPlaylist(AddToPlaylist(db, playlistId, songId).0, playlistId, songId) == db
  {
    var keep := (l: PlaylistSong) => !Links(l, playlistId, songId);
    var row := PlaylistSong(playlistId, songId, NextOrder(db.links, playlistId));
    FilterAppend(db.links, [row], keep);
    assert Filter([row], keep) == [];
  }

  lemma {:induction false} FilterAppend<T(!new)>(a: seq<T>, b: seq<T>, keep: T -> bool)
    ensures Filter(a + b, keep) == Filter(a, keep) + Filter(b, keep)
  {
    if |a| > 0 {
      var head := if keep(a[0]) then [a[0]] else [];
      assert (a + b)[0] == a[0] && (a + b)[1..] == a[1..] + b;
      assert Filter(a + b, keep) == head + Filter(a[1..] + b, keep);
      assert Filter(a, keep) == head + Filter(a[1..], keep);
      FilterAppend(a[1..], b, keep);
    } else {
      assert a + b == b;
    }
  }

  /** The rows of the tables once the playlist `id` and all of its playlist-song rows are gone. */
  function WithoutPlaylist(db: Db, id: PlaylistId): (r: Db)
    ensures r.songs == db.songs
    ensures !HasPlaylist(r, id)
    ensures forall p :: p in r.playlists <==> p in db.playlists && p.id != id
    ensures forall l :: l in r.links <==> l in db.links && l.playlistId != id
    ensures Consistent(db) ==> Consistent(r)
  {
    var r := Db(db.songs, Filter(db.playlists, (p: Playlist) => p.id != id), Filter(db.links, (l: PlaylistSong) => l.playlistId != id));
    WithoutPlaylistFacts(db, id, r);
    r
  }

  lemma WithoutPlaylistFacts(db: Db, id: PlaylistId, r: Db)
    requires r == Db(db.songs, Filter(db.playlists, (p: Playlist) => p.id != id), Filter(db.links, (l: PlaylistSong) => l.playlistId != id))
    ensures !HasPlaylist(r, id)
    ensures Consistent(db) ==> Consistent(r)
  {
    FilterKeepsNoDuplicates(db.links, (l: PlaylistSong) => l.playlistId != id);
    assert forall i :: 0 <= i < |r.playlists| ==> r.playlists[i] in r.playlists;
    if ForeignKeysHold(db) {
      forall l | l in r.links
        ensures HasPlaylist(r, l.playlistId) && HasSong(r, l.songId)
      {
        var i :| 0 <= i < |db.playlists| && db.playlists[i].id == l.playlistId;
        assert db.playlists[i] in r.playlists;
      }
    }
  }

  /**
   * `deletePlaylistAction`: refused in production; otherwise the playlist's
   * rows and then the playlist are deleted in one transaction.
   */
  function DeletePlaylistAction(db: Db, production: bool, id: PlaylistId): (r: (Db, Reply))
    ensures production ==> r == (db, Failed(NotInProduction))
    ensures !production ==> r == (WithoutPlaylist(db, id), Done)
  {
    if production then (db, Failed(NotInProduction)) else (WithoutPlaylist(db, id), Done)
  }

  /** `deletePlaylist`: first the playlist's rows, then the playlist itself. */
  function DeletePlaylist(db: Db, id: PlaylistId): (r: Db)
    ensures r == WithoutPlaylist(db, id)
  {
    var withoutRows := db.(links := Filter(db.links, (l: PlaylistSong) => l.playlistId != id));
    withoutRows.(playlists := Filter(withoutRows.playlists, (p: Playlist) => p.id != id))
  }

  /** Deleting a playlist leaves every other playlist's songs exactly as they were. */
  lemma DeleteKeepsOtherPlaylists(db: Db, id: PlaylistId, other: PlaylistId)
    requires other != id
    ensures Filter(DeletePlaylist(db, id).links, (l: PlaylistSong) => l.playlistId == other)
         == Filter(db.links, (l: PlaylistSong) => l.playlistId == other)
  {
    FilterFilter(db.links, (l: PlaylistSong) => l.playlistId != id, (l: PlaylistSong) => l.playlistId == other);
  }

  lemma {:induction false} FilterFilter<T(!new)>(s: seq<T>, outer: T -> bool, inner: T -> bool)
    requires forall x :: inner(x) ==> outer(x)
    ensures Filter(Filter(s, outer), inner) == Filter(s, inner)
  {
    if |s| > 0 {
      var head, tail := [s[0]], s[1..];
      assert s == head + tail;
      FilterFilter(tail, outer, inner);
      FilterAppend(head, tail, outer);
      FilterAppend(Filter(head, outer), Filter(tail, outer), inner);
      FilterAppend(head, tail, inner);
      assert Filter(Filter(head, outer), inner) == Filter(head, inner);
    }
  }

  // ---------------------------------------------------------------------------
  // Playlist actions
  // ---------------------------------------------------------------------------

  /** `createPlaylistAction` through `createPlaylist`: refused in production; a taken id fails the insert. */
  function CreatePlaylistAction(db: Db, production: bool, id: PlaylistId, name: string, now: Timestamp): (r: (Db, Reply))
    ensures production ==> r == (db, Failed(NotInProduction))
    ensures r.1.Failed? ==> r.0 == db
    ensures r.1 == Done <==> !production && !HasPlaylist(db, id)
    ensures r.1 == Done ==> r.0 == db.(playlists := db.playlists + [Playlist(id, name, None, now, now)])
    ensures Consistent(db) ==> Consistent(r.0)
  {
    if production then (db, Failed(NotInProduction))
    else if HasPlaylist(db, id) then (db, Failed("Failed to create playlist"))
    else
      var created := db.(playlists := db.playlists + [Playlist(id, name, None, now, now)]);
      KeptPlaylistIdsKeepConsistent(db, created);
      (created, Done)
  }

  /**
   * A write that keeps the songs, the join rows and every stored playlist id
   * at its position (possibly adding playlists after them) keeps the
   * database consistent.
   */
  lemma KeptPlaylistIdsKeepConsistent(db: Db, r: Db)
    requires r.songs == db.songs && r.links == db.links && |db.playlists| <= |r.playlists|
    requires forall i :: 0 <= i < |db.playlists| ==> r.playlists[i].id == db.playlists[i].id
    ensures Consistent(db) ==> Consistent(r)
  {
    forall l | l in r.links && Consistent(db)
      ensures HasPlaylist(r, l.playlistId)
    {
      assert HasPlaylist(db, l.playlistId);
      var i :| 0 <= i < |db.playlists| && db.playlists[i].id == l.playlistId;
      assert r.playlists[i].id == l.playlistId;
    }
  }

  /** `UPDATE … WHERE`: applies `change` to the rows `selected` picks; every other row is kept. */
  function UpdateRows<T>(rows: seq<T>, selected: T -> bool, change: T -> T): (r: seq<T>)
    ensures |r| == |rows|
    ensures forall i :: 0 <= i < |r| ==> r[i] == if selected(rows[i]) then change(rows[i]) else rows[i]
  {
    seq(|rows|, i requires 0 <= i < |rows| => if selected(rows[i]) then change(rows[i]) else rows[i])
  }

  /** Applies `change` to the rows of playlist `id`. */
  function UpdatePlaylistRows(playlists: seq<Playlist>, id: PlaylistId, change: Playlist -> Playlist): seq<Playlist> {
    UpdateRows(playlists, (p: Playlist) => p.id == id, change)
  }

  /** `updatePlaylistNameAction`: refused in production; otherwise only the name changes. */
  function UpdatePlaylistNameAction(db: Db, production: bool, id: PlaylistId, name: string): (r: (Db, Reply))
    ensures production ==> r == (db, Failed(NotInProduction))
    ensures !production ==> r.1 == Done && r.0.songs == db.songs && r.0.links == db.links && |r.0.playlists| == |db.playlists|
    ensures !production ==> forall i :: 0 <= i < |db.playlists| ==>
      r.0.playlists[i] == if db.playlists[i].id == id then db.playlists[i].(name := name) else db.playlists[i]
    ensures Consistent(db) ==> Consistent(r.0)
  {
    if production then (db, Failed(NotInProduction))
    else
      var renamed := db.(playlists := UpdatePlaylistRows(db.playlists, id, (p: Playlist) => p.(name := name)));
      KeptPlaylistIdsKeepConsistent(db, renamed);
      (renamed, Done)
  }

  /**
   * `uploadPlaylistCoverAction`: refused in production, then refused without
   * a file; otherwise the cover becomes the uploaded file's URL.
   */
  function UploadPlaylistCoverAction(db: Db, production: bool, id: PlaylistId, hasFile: bool, blobUrl: string): (r: (Db, Reply))
    ensures production ==> r == (db, Failed(NotInProduction))
    ensures !production && !hasFile ==> r == (db, Failed("No file provided"))
    ensures !production && hasFile ==> r.1 == DoneWithUrl(blobUrl) && r.0.songs == db.songs && r.0.links == db.links
    ensures |r.0.playlists| == |db.playlists|
    ensures !production && hasFile ==> forall i :: 0 <= i < |db.playlists| ==>
      r.0.playlists[i] == if db.playlists[i].id == id then db.playlists[i].(coverUrl := Some(blobUrl)) else db.playlists[i]
    ensures Consistent(db) ==> Consistent(r.0)
  {
    if production then (db, Failed(NotInProduction))
    else if !hasFile then (db, Failed("No file provided"))
    else
      var covered := db.(playlists := UpdatePlaylistRows(db.playlists, id, (p: Playlist) => p.(coverUrl := Some(blobUrl))));
      KeptPlaylistIdsKeepConsistent(db, covered);
      (covered, DoneWithUrl(blobUrl))
  }

  /** `updatePlaylist`: sets the name and the update time, and the cover only when one is given. */
  function UpdatePlaylist(db: Db, id: PlaylistId, name: string, coverUrl: Option<string>, now: Timestamp): (r: Db)
    ensures r.songs == db.songs && r.links == db.links && |r.playlists| == |db.playlists|
    ensures forall i :: 0 <= i < |db.playlists| && db.playlists[i].id == id ==>
      && r.playlists[i].name == name && r.playlists[i].updatedAt == now
      && r.playlists[i].coverUrl == (if coverUrl.Some? then coverUrl else db.playlists[i].coverUrl)
      && r.playlists[i].createdAt == db.playlists[i].createdAt && r.playlists[i].id == id
    ensures forall i :: 0 <= i < |db.playlists| && db.playlists[i].id != id ==> r.playlists[i] == db.playlists[i]
    ensures Consistent(db) ==> Consistent(r)
  {
    var change := (p: Playlist) => p.(name := name, coverUrl := if coverUrl.Some? then coverUrl else p.coverUrl, updatedAt := now);
    var updated := db.(playlists := UpdatePlaylistRows(db.playlists, id, change));
    KeptPlaylistIdsKeepConsistent(db, updated);
    updated
  }

  // ---------------------------------------------------------------------------
  // Track actions
  // ---------------------------------------------------------------------------

  /** Applies `change` to the rows of song `id`. */
  function UpdateSongRows(songs: seq<Song>, id: SongId, change: Song -> Song): seq<Song> {
    UpdateRows(songs, (s: Song) => s.id == id, change)
  }

  /** The stored column behind a text field; the optional columns may hold nothing. */
  function TextColumn(s: Song, f: NowPlaying.Field): Option<string>
    requires f != NowPlaying.Bpm
  {
    match f
    case Name => Some(s.name)
    case Artist => Some(s.artist)
    case Genre => s.genre
    case Album => s.album
    case Key => s.key
  }

  /**
   * `set({[field]: value})` for a text field: that one column now holds the
   * text as given, every other text column and every non-text column is kept.
   */
  function SetText(s: Song, f: NowPlaying.Field, value: string): (r: Song)
    requires f != NowPlaying.Bpm
    ensures TextColumn(r, f) == Some(value)
    ensures forall g :: g != NowPlaying.Bpm && g != f ==> TextColumn(r, g) == TextColumn(s, g)
    ensures r.id == s.id && r.bpm == s.bpm && r.duration == s.duration && r.imageUrl == s.imageUrl
    ensures r.audioUrl == s.audioUrl && r.createdAt == s.createdAt
  {
    match f
    case Name => s.(name := value)
    case Artist => s.(artist := value)
    case Genre => s.(genre := Some(value))
    case Album => s.(album := Some(value))
    case Key => s.(key := Some(value))
  }

  /**
   * `updateTrackAction` for the fields the panel edits: a bpm that does not
   * start with an integer is refused with nothing written; a bpm that does is
   * stored as that integer; any other field is stored as typed.
   */
  function UpdateTrackAction(db: Db, trackId: SongId, f: NowPlaying.Field, value: string): (r: (Db, Reply))
    ensures r.1.Failed? <==> f == NowPlaying.Bpm && Text.ParseInt(value).None?
    ensures r.1.Failed? ==> r == (db, Failed("bpm should be a valid number"))
    ensures r.1 == Done ==> r.0.playlists == db.playlists && r.0.links == db.links && |r.0.songs| == |db.songs|
    ensures r.1 == Done ==> forall i :: 0 <= i < |db.songs| && db.songs[i].id != trackId ==> r.0.songs[i] == db.songs[i]
    ensures r.1 == Done && f == NowPlaying.Bpm ==> forall i :: 0 <= i < |db.songs| && db.songs[i].id == trackId ==>
      r.0.songs[i] == db.songs[i].(bpm := Text.ParseInt(value))
    ensures r.1 == Done && f != NowPlaying.Bpm ==> forall i :: 0 <= i < |db.songs| && db.songs[i].id == trackId ==>
      r.0.songs[i] == SetText(db.songs[i], f, value)
  {
    if f == NowPlaying.Bpm then
      var parsed := Text.ParseInt(value);
      if parsed.None? then (db, Failed("bpm should be a valid number"))
      else (db.(songs := UpdateSongRows(db.songs, trackId, (s: Song) => s.(bpm := parsed))), Done)
    else (db.(songs := UpdateSongRows(db.songs, trackId, (s: Song) => SetText(s, f, value))), Done)
  }

  /**
   * What the editor shows after a save is what was typed, except that a bpm
   * is shown in its normalised decimal form, which parses back to the same
   * number.
   */
  lemma SavedFieldReadsBack(db: Db, i: nat, f: NowPlaying.Field, value: string)
    requires i < |db.songs| && UpdateTrackAction(db, db.songs[i].id, f, value).1 == Done
    ensures var saved := UpdateTrackAction(db, db.songs[i].id, f, value).0.songs[i];
      && (f != NowPlaying.Bpm ==> NowPlaying.InitialValue(saved, f) == value)
      && (f == NowPlaying.Bpm ==> NowPlaying.InitialValue(saved, f) == Text.IntToString(Text.ParseInt(value).value))
      && (f == NowPlaying.Bpm ==> Text.ParseInt(NowPlaying.InitialValue(saved, f)) == Text.ParseInt(value))
  {
    var r := UpdateTrackAction(db, db.songs[i].id, f, value);
    if f == NowPlaying.Bpm {
      assert r.0.songs[i] == db.songs[i].(bpm := Text.ParseInt(value));
      BpmReadsBack(db.songs[i], Text.ParseInt(value).value);
    } else {
      assert r.0.songs[i] == SetText(db.songs[i], f, value);
      TextReadsBack(db.songs[i], f, value);
    }
  }

  /** A text column written by `SetText` shows the text as typed. */
  lemma TextReadsBack(t: Song, f: NowPlaying.Field, value: string)
    requires f != NowPlaying.Bpm
    ensures NowPlaying.InitialValue(SetText(t, f, value), f) == value
  {
    assert TextColumn(SetText(t, f, value), f) == Some(value);
  }

  /** A stored bpm shows as its decimal form, which parses back to it. */
  lemma BpmReadsBack(t: Song, v: int)
    ensures NowPlaying.InitialValue(t.(bpm := Some(v)), NowPlaying.Bpm) == Text.IntToString(v)
    ensures Text.ParseInt(NowPlaying.InitialValue(t.(bpm := Some(v)), NowPlaying.Bpm)) == Some(v)
  {
    Text.ParseIntRoundTrip(v);
  }

  /**
   * `updateTrackImageAction`: refused, before any write, without a track id
   * or a file; otherwise the track's image becomes the uploaded file's URL.
   */
  function UpdateTrackImageAction(db: Db, trackId: SongId, hasFile: bool, blobUrl: string): (r: (Db, Reply))
    ensures trackId == "" || !hasFile ==> r == (db, Failed("Missing trackId or file"))
    ensures trackId != "" && hasFile ==> r.1 == DoneWithUrl(blobUrl) && r.0.playlists == db.playlists && r.0.links == db.links
    ensures |r.0.songs| == |db.songs|
    ensures trackId != "" && hasFile ==> forall i :: 0 <= i < |db.songs| ==>
      r.0.songs[i] == if db.songs[i].id == trackId then db.songs[i].(imageUrl := Some(blobUrl)) else db.songs[i]
  {
    if trackId == "" || !hasFile then (db, Failed("Missing trackId or file"))
    else (db.(songs := UpdateSongRows(db.songs, trackId, (s: Song) => s.(imageUrl := Some(blobUrl)))), DoneWithUrl(blobUrl))
  }

  /** The upload state the now-playing panel keeps from the image action's answer. */
  function UploadStateOf(reply: Reply): NowPlaying.UploadState {
    match reply
    case DoneWithUrl(url) => NowPlaying.UploadState(true, url)
    case _ => NowPlaying.UploadState(false, "")
  }

  /**
   * After a successful image upload the panel shows the uploaded image, and
   * it is the image now stored for the track; after a refused upload it keeps
   * showing the track's own image.
   */
  lemma UploadedCoverIsShownAndStored(db: Db, i: nat, hasFile: bool, blobUrl: string)
    requires i < |db.songs| && db.songs[i].id != "" && blobUrl != ""
    ensures var (db1, reply) := UpdateTrackImageAction(db, db.songs[i].id, hasFile, blobUrl);
      && (hasFile ==> NowPlaying.ShownCover(UploadStateOf(reply), db.songs[i]) == blobUrl
                      && db1.songs[i].imageUrl == Some(blobUrl))
      && (!hasFile ==> NowPlaying.ShownCover(UploadStateOf(reply), db.songs[i]) == NowPlaying.ShownCover(NowPlaying.InitialUpload, db.songs[i]))
  {
  }

  // ---------------------------------------------------------------------------
  // Queries
  // ---------------------------------------------------------------------------

  predicate NewerOrSame(a: Playlist, b: Playlist) { a.createdAt >= b.createdAt }

  predicate OrderLe(a: PlaylistSong, b: PlaylistSong) { a.order <= b.order }

  /** Songs compared by name under a string collation. */
  function ByName(collate: (string, string) -> bool): (Song, Song) -> bool {
    (a: Song, b: Song) => collate(a.name, b.name)
  }

  lemma ByNameIsTotalPreorder(collate: (string, string) -> bool)
    requires Sorting.TotalPreorder(collate)
    ensures Sorting.TotalPreorder(ByName(collate))
  {
    forall a: Song, b: Song
      ensures ByName(collate)(a, b) || ByName(collate)(b, a)
    {
      assert collate(a.name, b.name) || collate(b.name, a.name);
    }
    forall a: Song, b: Song, c: Song | ByName(collate)(a, b) && ByName(collate)(b, c)
      ensures ByName(collate)(a, c)
    {
      assert collate(a.name, b.name) && collate(b.name, c.name);
    }
  }

  /**
   * `getAllSongs`: every song, ordered by name. The order is the database's
   * collation for the column, `collate`, which may be any total preorder on
   * strings.
   */
  function GetAllSongs(db: Db, collate: (string, string) -> bool): (r: seq<Song>)
    requires Sorting.TotalPreorder(collate)
    ensures multiset(r) == multiset(db.songs)
    ensures forall i, j :: 0 <= i < j < |r| ==> collate(r[i].name, r[j].name)
  {
    ByNameIsTotalPreorder(collate);
    Sorting.SortSorted(db.songs, ByName(collate));
    Sorting.Sort(db.songs, ByName(collate))
  }

  /** Under the code-point ("C") collation the songs come in code-point order of their names. */
  lemma GetAllSongsInCodePointOrder(db: Db)
    ensures Sorting.TotalPreorder(Sorting.LexLe)
    ensures var r := GetAllSongs(db, Sorting.LexLe);
      forall i, j :: 0 <= i < j < |r| ==> Sorting.LexLe(r[i].name, r[j].name)
  {
    Sorting.LexLeIsTotalPreorder();
  }

  /** `getAllPlaylists`: every playlist, newest first. */
  function GetAllPlaylists(db: Db): (r: seq<Playlist>)
    ensures multiset(r) == multiset(db.playlists)
    ensures forall i, j :: 0 <= i < j < |r| ==> r[i].createdAt >= r[j].createdAt
  {
    Sorting.SortSorted(db.playlists, NewerOrSame);
    Sorting.Sort(db.playlists, NewerOrSame)
  }

  /** A song of a playlist as the page lists it, with its position. */
  datatype OrderedSong = OrderedSong(song: Song, order: int)

  datatype PlaylistView = PlaylistView(playlist: Playlist, songs: seq<OrderedSong>, trackCount: nat, duration: int)

  /** The first stored song with the id. */
  function FindSong(songs: seq<Song>, id: SongId): (s: Song)
    requires exists i :: 0 <= i < |songs| && songs[i].id == id
    ensures s in songs && s.id == id
  {
    if songs[0].id == id then songs[0] else FindSong(songs[1..], id)
  }

  /** The first stored playlist with the id. */
  function FindPlaylist(playlists: seq<Playlist>, id: PlaylistId): (r: Option<Playlist>)
    ensures r.Some? <==> exists i :: 0 <= i < |playlists| && playlists[i].id == id
    ensures r.Some? ==> r.value in playlists && r.value.id == id
  {
    if |playlists| == 0 then None
    else if playlists[0].id == id then Some(playlists[0])
    else FindPlaylist(playlists[1..], id)
  }

  /** Each row joined with its song. */
  function JoinSongs(db: Db, rows: seq<PlaylistSong>): (r: seq<OrderedSong>)
    requires forall l :: l in rows ==> HasSong(db, l.songId)
    ensures |r| == |rows|
    ensures forall k :: 0 <= k < |r| ==> r[k].order == rows[k].order && r[k].song.id == rows[k].songId && r[k].song in db.songs
  {
    if |rows| == 0 then []
    else
      assert rows[0] in rows;
      assert HasSong(db, rows[0].songId);
      assert forall l :: l in rows[1..] ==> l in rows;
      var head := OrderedSong(FindSong(db.songs, rows[0].songId), rows[0].order);
      var tail := JoinSongs(db, rows[1..]);
      assert forall k :: 0 < k < |rows| ==> ([head] + tail)[k] == tail[k - 1] && rows[k] == rows[1..][k - 1];
      [head] + tail
  }

  function TotalDuration(songs: seq<OrderedSong>): int {
    if |songs| == 0 then 0 else songs[0].song.duration + TotalDuration(songs[1..])
  }

  /** The playlist's rows, in storage order. */
  function RowsOf(db: Db, id: PlaylistId): seq<PlaylistSong> {
    Filter(db.links, (l: PlaylistSong) => l.playlistId == id)
  }

  /** The join-table rows a listing was built from. */
  function ListedRows(id: PlaylistId, songs: seq<OrderedSong>): seq<PlaylistSong> {
    seq(|songs|, k requires 0 <= k < |songs| => PlaylistSong(id, songs[k].song.id, songs[k].order))
  }

  /** Joining rows of playlist `id` and reading the rows back gives the rows again. */
  lemma ListedRowsOfJoin(db: Db, id: PlaylistId, rows: seq<PlaylistSong>)
    requires forall l :: l in rows ==> HasSong(db, l.songId) && l.playlistId == id
    ensures ListedRows(id, JoinSongs(db, rows)) == rows
  {
    var songs := JoinSongs(db, rows);
    forall k | 0 <= k < |rows|
      ensures ListedRows(id, songs)[k] == rows[k]
    {
      assert rows[k] in rows;
    }
  }

  /**
   * `getPlaylistWithSongs`: `None` (null) for an unknown id; otherwise the
   * playlist's songs ordered by their order, each carrying its order, with
   * their count and total duration.
   */
  function GetPlaylistWithSongs(db: Db, id: PlaylistId): (r: Option<PlaylistView>)
    requires ForeignKeysHold(db)
    ensures r.None? <==> !HasPlaylist(db, id)
    ensures r.Some? ==> r.value.playlist.id == id && r.value.playlist in db.playlists
    ensures r.Some? ==> forall i, j :: 0 <= i < j < |r.value.songs| ==> r.value.songs[i].order <= r.value.songs[j].order
    ensures r.Some? ==> r.value.trackCount == |r.value.songs| == |RowsOf(db, id)|
    ensures r.Some? ==> r.value.duration == TotalDuration(r.value.songs)
    ensures r.Some? ==> forall k :: 0 <= k < |r.value.songs| ==>
      PlaylistSong(id, r.value.songs[k].song.id, r.value.songs[k].order) in RowsOf(db, id)
    ensures r.Some? ==> multiset(ListedRows(id, r.value.songs)) == multiset(RowsOf(db, id))
    ensures r.Some? ==> forall k :: 0 <= k < |r.value.songs| ==> r.value.songs[k].song in db.songs
  {
    var found := FindPlaylist(db.playlists, id);
    if found.None? then None
    else
      var rows := Sorting.Sort(RowsOf(db, id), OrderLe);
      Sorting.SortSorted(RowsOf(db, id), OrderLe);
      Sorting.SortKeepsRows(RowsOf(db, id), OrderLe);
      var songs := JoinSongs(db, rows);
      ListedRowsOfJoin(db, id, rows);
      Some(PlaylistView(found.value, songs, |songs|, TotalDuration(songs)))
  }

  /** The duration of the rows' songs, summed in the rows' order. */
  function RowsDuration(db: Db, rows: seq<PlaylistSong>): int
    requires forall l :: l in rows ==> HasSong(db, l.songId)
  {
    if |rows| == 0 then 0
    else
      assert rows[0] in rows;
      assert HasSong(db, rows[0].songId);
      FindSong(db.songs, rows[0].songId).duration + RowsDuration(db, rows[1..])
  }

  lemma {:induction false} JoinedDuration(db: Db, rows: seq<PlaylistSong>)
    requires forall l :: l in rows ==> HasSong(db, l.songId)
    ensures TotalDuration(JoinSongs(db, rows)) == RowsDuration(db, rows)
  {
    if |rows| > 0 {
      JoinedDuration(db, rows[1..]);
      assert JoinSongs(db, rows)[1..] == JoinSongs(db, rows[1..]);
    }
  }

  lemma {:induction false} RowsDurationSplit(db: Db, rows: seq<PlaylistSong>, k: nat)
    requires forall l :: l in rows ==> HasSong(db, l.songId)
    requires k < |rows|
    ensures RowsDuration(db, rows) == FindSong(db.songs, rows[k].songId).duration + RowsDuration(db, rows[..k] + rows[k + 1..])
  {
    assert rows[k] in rows;
    if k > 0 {
      var rest := rows[1..];
      assert forall l :: l in rest ==> l in rows;
      RowsDurationSplit(db, rest, k - 1);
      var without := rows[..k] + rows[k + 1..];
      DropAfterHead(rows, k);
      assert forall l :: l in without ==> l in rows;
      assert without[0] == rows[0] && without[1..] == rest[..k - 1] + rest[k..];
    } else {
      assert rows[..0] + rows[1..] == rows[1..];
    }
  }

  /** Dropping a later element keeps the head and drops it from the tail. */
  lemma DropAfterHead<T>(s: seq<T>, k: nat)
    requires 0 < k < |s|
    ensures var without := s[..k] + s[k + 1..];
      && |without| > 0 && without[0] == s[0] && without[1..] == s[1..][..k - 1] + s[1..][k..]
      && forall x :: x in without ==> x in s
  {
  }

  /** Removing the element at `k` removes one copy of it from the multiset. */
  lemma MultisetWithout<T>(s: seq<T>, k: nat)
    requires k < |s|
    ensures multiset(s[..k] + s[k + 1..]) == multiset(s) - multiset{s[k]}
  {
    assert s == s[..k] + [s[k]] + s[k + 1..];
    assert multiset(s) == multiset(s[..k]) + multiset{s[k]} + multiset(s[k + 1..]);
  }

  /** A position at which an element of the multiset of `s` sits in `s`. */
  lemma PositionOf<T>(s: seq<T>, x: T) returns (k: nat)
    requires x in multiset(s)
    ensures k < |s| && s[k] == x
  {
    assert x in s;
    k :| 0 <= k < |s| && s[k] == x;
  }

  /** Rows with the same multiset name the same songs. */
  lemma SameRowsSameSongs(db: Db, a: seq<PlaylistSong>, b: seq<PlaylistSong>)
    requires forall l :: l in a ==> HasSong(db, l.songId)
    requires multiset(a) == multiset(b)
    ensures forall l :: l in b ==> HasSong(db, l.songId)
  {
    forall l | l in b
      ensures HasSong(db, l.songId)
    {
      assert l in multiset(b);
      assert l in multiset(a);
    }
  }

  /**
   * Taking the first element of `a` out of both sequences, at the position
   * `k` where it sits in `b`, leaves two sequences with the same elements.
   */
  lemma MultisetDropFirst<T>(a: seq<T>, b: seq<T>, k: nat)
    requires multiset(a) == multiset(b) && 0 < |a| && k < |b| && b[k] == a[0]
    ensures multiset(a[1..]) == multiset(b[..k] + b[k + 1..])
  {
    assert a == [a[0]] + a[1..];
    assert multiset(a) == multiset{a[0]} + multiset(a[1..]);
    MultisetWithout(b, k);
  }

  lemma RemoveMatchingRow(db: Db, a: seq<PlaylistSong>, b: seq<PlaylistSong>, k: nat)
    requires forall l :: l in a ==> HasSong(db, l.songId)
    requires multiset(a) == multiset(b) && 0 < |a| && k < |b| && b[k] == a[0]
    ensures multiset(a[1..]) == multiset(b[..k] + b[k + 1..])
    ensures forall l :: l in a[1..] ==> HasSong(db, l.songId)
  {
    MultisetDropFirst(a, b, k);
    assert forall l :: l in a[1..] ==> l in a;
  }

  /** The summed duration does not depend on the order of the rows. */
  lemma {:induction false} RowsDurationPermutation(db: Db, a: seq<PlaylistSong>, b: seq<PlaylistSong>)
    requires forall l :: l in a ==> HasSong(db, l.songId)
    requires multiset(a) == multiset(b)
    ensures forall l :: l in b ==> HasSong(db, l.songId)
    ensures RowsDuration(db, a) == RowsDuration(db, b)
    decreases |a|
  {
    SameRowsSameSongs(db, a, b);
    if |a| > 0 {
      var k := PositionOf(b, a[0]);
      RemoveMatchingRow(db, a, b, k);
      var rest := b[..k] + b[k + 1..];
      RowsDurationSplit(db, b, k);
      RowsDurationPermutation(db, a[1..], rest);
    } else {
      assert |multiset(b)| == 0;
    }
  }

  /**
   * The playlist's duration is the sum of the durations of its songs, as
   * stored, whatever order they are listed in.
   */
  lemma PlaylistDurationIsSumOfItsSongs(db: Db, id: PlaylistId)
    requires ForeignKeysHold(db) && HasPlaylist(db, id)
    ensures var rows := RowsOf(db, id);
      && (forall l :: l in rows ==> HasSong(db, l.songId))
      && GetPlaylistWithSongs(db, id).value.duration == RowsDuration(db, rows)
  {
    var rows := RowsOf(db, id);
    var sorted := Sorting.Sort(rows, OrderLe);
    RowsDurationPermutation(db, rows, sorted);
    JoinedDuration(db, sorted);
  }
}
