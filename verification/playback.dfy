/**
 * The playback session of the provider: current track, queue, play/pause and
 * shuffle flags, position, favourites and the panel navigator, with one pure
 * step function per operation. Requests to the shared audio element and to
 * the favourites endpoint are returned as effects instead of being performed.
 */
module Playback {
  import opened Wrappers
  import opened Library
  import Text
  import Uri
  import PanelNavigation

  /** What an operation asks of the outside world. */
  datatype Effect =
    | LoadSource(src: string)             // `audio.src = ...`
    | RequestPlay                         // `audio.play()`, whose failure is only logged
    | RequestPause                        // `audio.pause()`
    | NotifyFavorite(songId: SongId, isFavorite: bool)  // POST `/api/favorites`

  datatype Session = Session(
    current: Option<Song>,
    queue: seq<Song>,
    isPlaying: bool,
    isShuffle: bool,
    currentTime: real,
    duration: real,
    favoriteIds: set<SongId>,
    nav: PanelNavigation.Navigator,
    hasAudio: bool)   // the `<audio>` element is mounted

  /** A session after an operation, with the effects the operation issued in order. */
  datatype Step = Step(session: Session, effects: seq<Effect>)

  /** The provider's state at mount. */
  function Initial(hasAudio: bool): (s: Session)
    ensures s.current.None? && s.queue == [] && !s.isPlaying && !s.isShuffle
    ensures s.favoriteIds == {} && s.nav.activePanel == PanelNavigation.Sidebar
  {
    Session(None, [], false, false, 0.0, 0.0, {}, PanelNavigation.Initial(), hasAudio)
  }

  // ---------------------------------------------------------------------------
  // Locator normalisation
  // ---------------------------------------------------------------------------

  const FileScheme := "file://"
  const AudioRoute := "/api/audio/"

  /** `url.split('/').pop()`: the text after the last `/`, or all of `url` when it has none. */
  function LastSegment(url: string): (r: string)
    ensures |r| <= |url| && r == url[|url| - |r|..]
    ensures '/' !in r
    ensures |r| < |url| ==> url[|url| - |r| - 1] == '/'
  {
    if |url| == 0 || url[|url| - 1] == '/' then ""
    else LastSegment(url[..|url| - 1]) + [url[|url| - 1]]
  }

  /**
   * `getAudioSrc`: a `file://` locator becomes the audio route followed by
   * its encoded file name; any other locator is used as it is.
   */
  function GetAudioSrc(url: string): (r: string)
    ensures !Text.StartsWith(url, FileScheme) ==> r == url
    ensures Text.StartsWith(url, FileScheme) ==>
      && Text.StartsWith(r, AudioRoute)
      && '/' !in r[|AudioRoute|..]
      && Uri.DecodeComponent(r[|AudioRoute|..]) == Some(LastSegment(url))
  {
    if Text.StartsWith(url, FileScheme) then
      AudioRouteOf(LastSegment(url));
      AudioRoute + Uri.EncodeComponent(LastSegment(url))
    else url
  }

  /** The audio route for a file name carries the name, encoded, as its last segment. */
  lemma AudioRouteOf(name: string)
    ensures var r := AudioRoute + Uri.EncodeComponent(name);
      && Text.StartsWith(r, AudioRoute)
      && r[|AudioRoute|..] == Uri.EncodeComponent(name)
      && '/' !in r[|AudioRoute|..]
      && Uri.DecodeComponent(r[|AudioRoute|..]) == Some(name)
  {
    Uri.DecodeEncode(name);
    Uri.EncodedHasNoSlash(name);
    Text.StartsWithConcat(AudioRoute, Uri.EncodeComponent(name));
  }

  /** The last segment of `dir + "/" + name` is `name` when `name` holds no `/`. */
  lemma {:induction false} LastSegmentOfPath(dir: string, name: string)
    requires '/' !in name
    ensures LastSegment(dir + "/" + name) == name
  {
    var url := dir + "/" + name;
    var r := LastSegment(url);
    assert url[|url| - |name|..] == name;
    assert forall k :: |url| - |name| <= k < |url| ==> url[k] == name[k - (|url| - |name|)];
    assert url[|url| - |name| - 1] == '/';
    assert forall k :: 0 <= k < |r| ==> r[k] == url[|url| - |r| + k];
  }

  // ---------------------------------------------------------------------------
  // Queue positions
  // ---------------------------------------------------------------------------

  /** `queue.findIndex(t => t.id === id)`: the first position holding `id`, or -1. */
  function FindIndex(queue: seq<Song>, id: SongId): (r: int)
    ensures -1 <= r < |queue|
    ensures r >= 0 ==> queue[r].id == id && forall j :: 0 <= j < r ==> queue[j].id != id
    ensures r == -1 ==> forall j :: 0 <= j < |queue| ==> queue[j].id != id
  {
    if |queue| == 0 then -1
    else if queue[0].id == id then 0
    else
      var k := FindIndex(queue[1..], id);
      if k == -1 then -1 else k + 1
  }

  // ---------------------------------------------------------------------------
  // Operations
  // ---------------------------------------------------------------------------

  /** `setPlaylist`: replaces the queue and nothing else. */
  function SetQueue(s: Session, queue: seq<Song>): (r: Session)
    ensures r.queue == queue && r == s.(queue := r.queue)
  {
    s.(queue := queue)
  }

  /**
   * `playTrack(t)`: `t` becomes current, playing, from position 0, and the
   * track list becomes the active panel; with an audio element mounted its
   * source is set to the normalised locator and playback is requested.
   */
  function PlayTrack(s: Session, t: Song): (r: Step)
    ensures r.session.current == Some(t) && r.session.isPlaying && r.session.currentTime == 0.0
    ensures r.session.nav.activePanel == PanelNavigation.Tracklist
    ensures r.session.nav.registered == s.nav.registered
    ensures r.session.queue == s.queue && r.session.isShuffle == s.isShuffle
    ensures r.session.favoriteIds == s.favoriteIds && r.session.hasAudio == s.hasAudio
    ensures r.session.duration == s.duration
    ensures r.session == s.(current := r.session.current, isPlaying := r.session.isPlaying,
                            currentTime := r.session.currentTime, nav := r.session.nav)
    ensures r.effects == if s.hasAudio then [LoadSource(GetAudioSrc(t.audioUrl)), RequestPlay] else []
  {
    var session := s.(current := Some(t), isPlaying := true, currentTime := 0.0,
                      nav := PanelNavigation.SetActive(s.nav, PanelNavigation.Tracklist));
    Step(session, if s.hasAudio then [LoadSource(GetAudioSrc(t.audioUrl)), RequestPlay] else [])
  }

  /**
   * Playing a track stored as a `file://` locator loads it through the audio
   * route, whose last segment decodes to the file's name; any other locator
   * is loaded as it is.
   */
  lemma PlayTrackLoadsSource(s: Session, t: Song, dir: string, name: string)
    requires s.hasAudio
    ensures t.audioUrl == FileScheme + dir + "/" + name && '/' !in name ==>
      && PlayTrack(s, t).effects[0] == LoadSource(AudioRoute + Uri.EncodeComponent(name))
      && Uri.DecodeComponent(Uri.EncodeComponent(name)) == Some(name)
    ensures !Text.StartsWith(t.audioUrl, FileScheme) ==> PlayTrack(s, t).effects[0] == LoadSource(t.audioUrl)
  {
    if t.audioUrl == FileScheme + dir + "/" + name && '/' !in name {
      assert t.audioUrl == (FileScheme + dir) + "/" + name;
      LastSegmentOfPath(FileScheme + dir, name);
      Text.StartsWithConcat(FileScheme, dir + "/" + name);
      assert FileScheme + (dir + "/" + name) == t.audioUrl;
      Uri.DecodeEncode(name);
    }
  }

  /** A draw of `Math.floor(Math.random() * n)` for the current queue length `n`. */
  predicate ValidDraw(s: Session, draw: nat) {
    |s.queue| == 0 || draw < |s.queue|
  }

  /** Next and previous act only with a current track and a non-empty queue. */
  predicate CanAdvance(s: Session) {
    s.current.Some? && |s.queue| > 0
  }

  /** The queue position `playNextTrack` plays. */
  function NextIndex(s: Session, draw: nat): (i: nat)
    requires CanAdvance(s) && ValidDraw(s, draw)
    ensures i < |s.queue|
  {
    if s.isShuffle then draw
    else (FindIndex(s.queue, s.current.value.id) + 1) % |s.queue|
  }

  /** The queue position `playPreviousTrack` plays, whatever the shuffle flag. */
  function PreviousIndex(s: Session): (i: nat)
    requires CanAdvance(s)
    ensures i < |s.queue|
  {
    (FindIndex(s.queue, s.current.value.id) - 1 + |s.queue|) % |s.queue|
  }

  /** `playNextTrack`; `draw` stands for the random index used in shuffle mode. */
  function PlayNextTrack(s: Session, draw: nat): (r: Step)
    requires ValidDraw(s, draw)
    ensures !CanAdvance(s) ==> r == Step(s, [])
    ensures CanAdvance(s) ==> r.session.current.Some? && r.session.current.value in s.queue
    ensures CanAdvance(s) ==> r.session.isPlaying && r.session.queue == s.queue
  {
    if CanAdvance(s) then PlayTrack(s, s.queue[NextIndex(s, draw)]) else Step(s, [])
  }

  /** `playPreviousTrack`. */
  function PlayPreviousTrack(s: Session): (r: Step)
    ensures !CanAdvance(s) ==> r == Step(s, [])
    ensures CanAdvance(s) ==> r.session.current.Some? && r.session.current.value in s.queue
    ensures CanAdvance(s) ==> r.session.isPlaying && r.session.queue == s.queue
  {
    if CanAdvance(s) then PlayTrack(s, s.queue[PreviousIndex(s)]) else Step(s, [])
  }

  /** The `ended` event of the audio element: the one automatic transition, a call of `playNextTrack`. */
  function TrackEnded(s: Session, draw: nat): (r: Step)
    requires ValidDraw(s, draw)
    ensures !CanAdvance(s) ==> r == Step(s, [])
    ensures CanAdvance(s) ==> r.session.current == Some(s.queue[NextIndex(s, draw)])
    ensures CanAdvance(s) ==> r.session.isPlaying && r.session.currentTime == 0.0 && r.session.queue == s.queue
  {
    PlayNextTrack(s, draw)
  }

  /**
   * `togglePlayPause`: with an audio element, requests pause or play and
   * flips the flag; without one it does nothing.
   */
  function TogglePlayPause(s: Session): (r: Step)
    ensures r.session.current == s.current && r.session.queue == s.queue
    ensures s.hasAudio ==> r.session == s.(isPlaying := !s.isPlaying)
    ensures s.hasAudio ==> r.effects == [if s.isPlaying then RequestPause else RequestPlay]
    ensures !s.hasAudio ==> r == Step(s, [])
  {
    if s.hasAudio then
      Step(s.(isPlaying := !s.isPlaying), [if s.isPlaying then RequestPause else RequestPlay])
    else Step(s, [])
  }

  /**
   * `toggleShuffle`: flips the flag; switching it on with a non-empty queue
   * also plays the queue entry at the random index `draw`.
   */
  function ToggleShuffle(s: Session, draw: nat): (r: Step)
    requires ValidDraw(s, draw)
    ensures r.session.isShuffle == !s.isShuffle
    ensures r.session.queue == s.queue && r.session.favoriteIds == s.favoriteIds
    ensures !s.isShuffle && |s.queue| > 0 ==> r.session.current == Some(s.queue[draw]) && r.session.isPlaying
    ensures !(!s.isShuffle && |s.queue| > 0) ==> r == Step(s.(isShuffle := !s.isShuffle), [])
  {
    if !s.isShuffle && |s.queue| > 0 then PlayTrack(s.(isShuffle := true), s.queue[draw])
    else Step(s.(isShuffle := !s.isShuffle), [])
  }

  /** Switching shuffle on and off again keeps the queue and the favourites; switching it off plays nothing. */
  lemma ToggleShuffleTwice(s: Session, draw1: nat, draw2: nat)
    requires ValidDraw(s, draw1) && ValidDraw(s, draw2)
    ensures s.isShuffle ==> ToggleShuffle(s, draw1) == Step(s.(isShuffle := false), [])
    ensures var once := ToggleShuffle(s, draw1).session;
      var twice := ToggleShuffle(once, draw2).session;
      twice.isShuffle == s.isShuffle && twice.queue == s.queue && twice.favoriteIds == s.favoriteIds
  {
  }

  /** `isFavorite`. */
  predicate IsFavorite(s: Session, id: SongId) {
    id in s.favoriteIds
  }

  /**
   * `toggleFavorite(t)`: flips the membership of `t.id` at once and then
   * reports the new status; a failed report changes nothing locally.
   */
  function ToggleFavorite(s: Session, t: Song): (r: Step)
    ensures IsFavorite(r.session, t.id) == !IsFavorite(s, t.id)
    ensures forall id :: id != t.id ==> (IsFavorite(r.session, id) <==> IsFavorite(s, id))
    ensures r.session == s.(favoriteIds := r.session.favoriteIds)
    ensures r.effects == [NotifyFavorite(t.id, IsFavorite(r.session, t.id))]
  {
    var ids := if t.id in s.favoriteIds then s.favoriteIds - {t.id} else s.favoriteIds + {t.id};
    Step(s.(favoriteIds := ids), [NotifyFavorite(t.id, t.id in ids)])
  }

  /** Toggling the same track twice restores the favourites and reports both statuses in turn. */
  lemma ToggleFavoriteTwice(s: Session, t: Song)
    ensures var once := ToggleFavorite(s, t);
      var twice := ToggleFavorite(once.session, t);
      twice.session == s && once.effects + twice.effects ==
        [NotifyFavorite(t.id, !IsFavorite(s, t.id)), NotifyFavorite(t.id, IsFavorite(s, t.id))]
  {
  }

  /** The `timeupdate` event: the exposed position follows the element's. */
  function TimeUpdate(s: Session, position: real): (r: Session)
    ensures r.currentTime == position && r == s.(currentTime := r.currentTime)
  {
    s.(currentTime := position)
  }

  /** `handleKeyNavigation`, acting on the session's navigator. */
  function HandleKey(s: Session, v: PanelNavigation.View, key: string, panel: PanelNavigation.Panel): (r: (Session, PanelNavigation.Focus))
    requires v.Valid()
    requires PanelNavigation.Available(s.nav, v, panel) && (PanelNavigation.IsDownKey(key) || PanelNavigation.IsUpKey(key)) ==>
               v.Rows(panel).value > 0
    ensures r.0 == s.(nav := r.0.nav)
  {
    var step := PanelNavigation.HandleKey(s.nav, v, key, panel);
    (s.(nav := step.nav), step.focus)
  }

  /** A global key press's outcome: the session step, whether the default was prevented, and whether the search box was focused. */
  datatype GlobalOutcome = GlobalOutcome(step: Step, prevented: bool, focusSearch: bool)

  /**
   * The window-wide key handler: Space pressed on the page body toggles
   * playback, `/` focuses the search box, and every other key is left alone.
   */
  function GlobalKeyDown(s: Session, key: string, onBody: bool): (r: GlobalOutcome)
    ensures r.prevented <==> (key == " " && onBody) || key == "/"
    ensures r.focusSearch <==> key == "/"
    ensures key == " " && onBody ==> r.step == TogglePlayPause(s)
    ensures !(key == " " && onBody) ==> r.step == Step(s, [])
  {
    if key == " " && onBody then GlobalOutcome(TogglePlayPause(s), true, false)
    else if key == "/" then GlobalOutcome(Step(s, []), true, true)
    else GlobalOutcome(Step(s, []), false, false)
  }

  // ---------------------------------------------------------------------------
  // Properties
  // ---------------------------------------------------------------------------

  /** Two presses of Space on the page body leave the session as it was, having asked for play and pause in turn. */
  lemma SpaceTwiceRestores(s: Session)
    requires s.hasAudio
    ensures var first := GlobalKeyDown(s, " ", true).step;
      var second := GlobalKeyDown(first.session, " ", true).step;
      && second.session == s
      && first.effects + second.effects == (if s.isPlaying then [RequestPause, RequestPlay] else [RequestPlay, RequestPause])
  {
  }

  /** Space typed inside another element, such as a text field, does not touch playback. */
  lemma SpaceOutsideBodyIgnored(s: Session)
    ensures GlobalKeyDown(s, " ", false) == GlobalOutcome(Step(s, []), false, false)
  {
  }

  /** `i` is the first queue position holding the current track. */
  predicate FirstPositionOfCurrent(s: Session, i: nat) {
    && s.current.Some? && i < |s.queue| && s.queue[i].id == s.current.value.id
    && forall j :: 0 <= j < i ==> s.queue[j].id != s.current.value.id
  }

  predicate CurrentNotQueued(s: Session) {
    s.current.Some? && forall j :: 0 <= j < |s.queue| ==> s.queue[j].id != s.current.value.id
  }

  lemma FindIndexOfFirstPosition(s: Session, i: nat)
    requires FirstPositionOfCurrent(s, i)
    ensures FindIndex(s.queue, s.current.value.id) == i
  {
  }

  /** Without shuffle, next plays the queue entry after the current track's first position. */
  lemma NextWithoutShuffle(s: Session, draw: nat, i: nat)
    requires ValidDraw(s, draw) && !s.isShuffle && FirstPositionOfCurrent(s, i) && i + 1 < |s.queue|
    ensures PlayNextTrack(s, draw).session.current == Some(s.queue[i + 1])
  {
    FindIndexOfFirstPosition(s, i);
    PanelNavigation.ModOfRange(i + 1, |s.queue|);
  }

  /** Without shuffle, next from the last queue entry wraps to the first. */
  lemma NextWrapsToFirst(s: Session, draw: nat)
    requires ValidDraw(s, draw) && !s.isShuffle && |s.queue| > 0 && FirstPositionOfCurrent(s, |s.queue| - 1)
    ensures PlayNextTrack(s, draw).session.current == Some(s.queue[0])
  {
    FindIndexOfFirstPosition(s, |s.queue| - 1);
    PanelNavigation.ModOfRange(|s.queue|, |s.queue|);
  }

  /** Without shuffle, next from a track absent from the queue plays the first entry. */
  lemma NextFromUnqueuedTrack(s: Session, draw: nat)
    requires ValidDraw(s, draw) && !s.isShuffle && CurrentNotQueued(s) && |s.queue| > 0
    ensures PlayNextTrack(s, draw).session.current == Some(s.queue[0])
  {
    PanelNavigation.ModOfRange(0, |s.queue|);
  }

  /** With shuffle on, next plays the entry at the drawn index, which may be the current one. */
  lemma NextWithShuffle(s: Session, draw: nat)
    requires ValidDraw(s, draw) && s.isShuffle && CanAdvance(s)
    ensures PlayNextTrack(s, draw).session.current == Some(s.queue[draw])
  {
  }

  /** Previous plays the entry before the current track's first position. */
  lemma PreviousSteps(s: Session, i: nat)
    requires FirstPositionOfCurrent(s, i) && i > 0
    ensures PlayPreviousTrack(s).session.current == Some(s.queue[i - 1])
  {
    FindIndexOfFirstPosition(s, i);
    PanelNavigation.ModOfRange(i - 1 + |s.queue|, |s.queue|);
  }

  /** Previous from the first queue entry wraps to the last. */
  lemma PreviousWrapsToLast(s: Session)
    requires FirstPositionOfCurrent(s, 0)
    ensures PlayPreviousTrack(s).session.current == Some(s.queue[|s.queue| - 1])
  {
    FindIndexOfFirstPosition(s, 0);
    PanelNavigation.ModOfRange(|s.queue| - 1, |s.queue|);
  }

  /** Previous from a track absent from the queue lands on the second-to-last entry. */
  lemma PreviousFromUnqueuedTrack(s: Session)
    requires CurrentNotQueued(s) && |s.queue| > 0
    ensures PlayPreviousTrack(s).session.current == Some(s.queue[if |s.queue| >= 2 then |s.queue| - 2 else 0])
  {
    if |s.queue| >= 2 {
      PanelNavigation.ModOfRange(|s.queue| - 2, |s.queue|);
    }
  }

  /** Previous does not look at the shuffle flag. */
  lemma PreviousIgnoresShuffle(s: Session)
    ensures PlayPreviousTrack(s).session.current == PlayPreviousTrack(s.(isShuffle := !s.isShuffle)).session.current
  {
  }

  /** No two queue entries share an id, as for a playlist listing. */
  predicate DistinctIds(queue: seq<Song>) {
    forall j, k :: 0 <= j < k < |queue| ==> queue[j].id != queue[k].id
  }

  /**
   * Without shuffle and with distinct ids, `previous` after a track ends
   * returns to the queue entry that had just finished: the automatic advance
   * is undone by the previous button.
   */
  lemma {:induction false} PreviousUndoesTrackEnded(s: Session, draw: nat, i: nat)
    requires ValidDraw(s, draw) && !s.isShuffle && FirstPositionOfCurrent(s, i) && DistinctIds(s.queue)
    ensures PlayPreviousTrack(TrackEnded(s, draw).session).session.current == Some(s.queue[i])
  {
    var after := TrackEnded(s, draw).session;
    if i + 1 < |s.queue| {
      NextWithoutShuffle(s, draw, i);
      assert FirstPositionOfCurrent(after, i + 1);
      PreviousSteps(after, i + 1);
    } else {
      NextWrapsToFirst(s, draw);
      assert FirstPositionOfCurrent(after, 0);
      PreviousWrapsToLast(after);
    }
  }

  /** A three-track queue without shuffle: next from the first plays the second, next from the third wraps to the first, previous from the first wraps to the third. */
  lemma ThreeTrackExample(s: Session, a: Song, b: Song, c: Song)
    requires s.queue == [a, b, c] && a.id != b.id && b.id != c.id && a.id != c.id && !s.isShuffle
    ensures PlayNextTrack(s.(current := Some(a)), 0).session.current == Some(b)
    ensures PlayNextTrack(s.(current := Some(c)), 0).session.current == Some(a)
    ensures PlayPreviousTrack(s.(current := Some(a))).session.current == Some(c)
    ensures PlayPreviousTrack(s.(current := Some(a), isShuffle := true)).session.current == Some(c)
  {
    NextWithoutShuffle(s.(current := Some(a)), 0, 0);
    NextWrapsToFirst(s.(current := Some(c)), 0);
    PreviousWrapsToLast(s.(current := Some(a)));
    PreviousWrapsToLast(s.(current := Some(a), isShuffle := true));
  }

  /**
   * From a fresh session: playing A makes it current and playing, pausing
   * keeps A current, and the end of A with queue [A, B] plays B.
   */
  lemma EndToEndExample(a: Song, b: Song, draw: nat)
    requires a.id != b.id && draw < 2
    ensures var s1 := PlayTrack(Initial(true), a).session;
      s1.current == Some(a) && s1.isPlaying
    ensures var s2 := TogglePlayPause(PlayTrack(Initial(true), a).session).session;
      s2.current == Some(a) && !s2.isPlaying
    ensures var s2 := TogglePlayPause(PlayTrack(Initial(true), a).session).session;
      TrackEnded(SetQueue(s2, [a, b]), draw).session.current == Some(b)
  {
    var s2 := TogglePlayPause(PlayTrack(Initial(true), a).session).session;
    NextWithoutShuffle(SetQueue(s2, [a, b]), draw, 0);
  }
}
