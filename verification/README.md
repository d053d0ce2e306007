# A verified model of the music player's decision logic

The player is a Next.js application. A sidebar lists playlists, a track list shows
the songs of one playlist, a now-playing panel edits the current song's metadata,
and a transport bar plays audio. Beneath the React and database plumbing sit a
number of small deterministic procedures. This project restates each of them as
pure functions over immutable Dafny datatypes and proves what the code promises
about them:

- **Playback session.** The provider's state is the current track, queue,
  play/pause and shuffle flags, position and favourites. Its operations are
  `playTrack`, next, previous, the toggles, the `ended` event and the window-wide
  keys. Requests to the audio element and to the favourites endpoint are returned
  as a list of effects instead of being performed.
- **Two keyboard navigators.** The provider's navigator wraps around at the ends
  of a list and switches panels with `h`/`l`. The per-list hook stops at the ends
  and dispatches select and exit callbacks.
- **Transport bar.** The `m:ss` clock label, click-to-seek, the media-session
  actions, the playback buttons, and the volume/mute control.
- **Numeric helpers.** `clamp`, `randomBetween`, `formatBytes` and `getTimeAgo`.
- **Sidebar.** The double-click guards of delete and add, and the order of
  navigation, optimistic change, server call and refresh. Also the sidebar's
  registration with the navigator.
- **Inline editor and cover gate** of the now-playing panel.
- **Server actions and queries** over in-memory `songs`, `playlists` and
  `playlist_songs` tables. These cover add with de-duplication and next order,
  removal, cascade delete, rename and cover upload, track updates with bpm
  parsing, the production guards, and the three list queries.
- **Search highlighting** (`highlightText`).
- **Database client configuration.** URL fallback and TLS mode.

Randomness (`Math.random`), the clock, generated ids and blob URLs are all
parameters of the functions that need them. Two behaviours are modelled exactly
as the code has them:

- The media-session `seekto` handler does not clamp the requested time.
- Both navigators are kept, each with its own end-of-list behaviour: wrapping in
  the provider and clamping in the hook.

## Model

| member | source | states |
|---|---|---|
| Playback.Initial | app/playback-context.tsx:43-108 | the session starts with no track, an empty queue, paused, shuffle off, no favourites, and the sidebar as active panel |
| Playback.SetQueue | app/playback-context.tsx:106 | `setPlaylist` replaces the queue and leaves every other part of the session as it was |
| Playback.PlayTrack | app/playback-context.tsx:133-159 | the track becomes current, playing, from 0, with the track list active. Every other field of the session, the duration included, is unchanged. With an audio element, exactly a source load then a play request are issued |
| Playback.PlayTrackLoadsSource | app/playback-context.tsx:133-189 | playing a track stored as `file://dir/name` loads `/api/audio/` plus the encoded name, which decodes back to the name; any other locator is loaded unchanged |
| Playback.GetAudioSrc | app/playback-context.tsx:183-189 | a `file://` locator becomes `/api/audio/` plus one slash-free segment that decodes back to the locator's last path segment; any other locator is returned unchanged |
| Playback.LastSegment | app/playback-context.tsx:185 | the result is a slash-free suffix of the locator, preceded in it by a slash whenever it is not the whole locator |
| Playback.LastSegmentOfPath | app/playback-context.tsx:185 | the last segment of `dir/name` is `name` when the name has no slash |
| Playback.AudioRouteOf | app/playback-context.tsx:185-187 | the audio route built from a file name starts with the route prefix, and its remainder is slash-free and percent-decodes to the name |
| Playback.PlayNextTrack | app/playback-context.tsx:161-173 | with no current track or an empty queue nothing happens; otherwise a member of the queue is played and the queue is kept |
| Playback.PlayPreviousTrack | app/playback-context.tsx:175-181 | with no current track or an empty queue nothing happens; otherwise a member of the queue is played and the queue is kept |
| Playback.NextWithoutShuffle | app/playback-context.tsx:168-170 | without shuffle, next plays the entry after the first position of the current track |
| Playback.NextWrapsToFirst | app/playback-context.tsx:168-170 | without shuffle, next from the last entry wraps to the first |
| Playback.NextFromUnqueuedTrack | app/playback-context.tsx:168-170 | a current track absent from the queue (index -1) advances to entry 0 |
| Playback.NextWithShuffle | app/playback-context.tsx:165-167 | with shuffle, next plays the entry at the random index, possibly the current track again |
| Playback.PreviousSteps | app/playback-context.tsx:176-179 | previous plays the entry before the current track's first position |
| Playback.PreviousWrapsToLast | app/playback-context.tsx:176-179 | previous from the first entry wraps to the last |
| Playback.PreviousFromUnqueuedTrack | app/playback-context.tsx:177-178 | from a track absent from the queue, previous lands on entry n-2 (entry 0 when n is 1) |
| Playback.PreviousIgnoresShuffle | app/playback-context.tsx:175-181 | previous plays the same track whatever the shuffle flag |
| Playback.TrackEnded | app/playback-context.tsx:255-266 | when a track ends, with no current track or an empty queue nothing happens; otherwise the entry `playNextTrack` picks plays from 0 and the queue is kept |
| Playback.PreviousUndoesTrackEnded | app/playback-context.tsx:161-181 | without shuffle and with distinct ids in the queue, pressing previous after a track ends returns to the queue entry that had just finished |
| Playback.ThreeTrackExample | app/playback-context.tsx:161-181 | on a three-track queue: next from the first gives the second, next from the third wraps to the first, and previous from the first wraps to the third, shuffle or not |
| Playback.TogglePlayPause | app/playback-context.tsx:114-131 | with an audio element the flag flips and a pause (if playing) or play request is issued; without one nothing changes; the current track and queue never change |
| Playback.ToggleShuffle | app/playback-context.tsx:191-201 | the flag always flips; only switching on with a non-empty queue plays the queue entry at the random index; otherwise nothing else changes |
| Playback.ToggleShuffleTwice | app/playback-context.tsx:191-201 | switching shuffle off plays nothing; toggling twice restores the flag and keeps the queue and favourites |
| Playback.ToggleFavorite | app/playback-context.tsx:203-235 | exactly the track's id flips membership, every other id keeps its status, nothing else in the session changes, and the new status is reported |
| Playback.ToggleFavoriteTwice | app/playback-context.tsx:203-235 | toggling the same track twice restores the favourite set exactly (`isFavorite` answers as before for every id) and reports the flipped status and then the original one |
| Playback.TimeUpdate | app/playback-controls.tsx:214-218 | a position report sets the exposed time to the element's position and changes nothing else |
| Playback.HandleKey | app/playback-context.tsx:53-96 | the navigator's key handler changes only the session's navigator |
| Playback.GlobalKeyDown | app/playback-context.tsx:237-253 | Space on the page body toggles playback and `/` focuses search, both preventing the default; other keys do nothing |
| Playback.SpaceTwiceRestores | app/playback-context.tsx:239-241 | two Space presses restore the session and issue a play and a pause request in turn |
| Playback.SpaceOutsideBodyIgnored | app/playback-context.tsx:239 | Space typed anywhere but the page body is ignored |
| Playback.EndToEndExample | app/playback-context.tsx:255-266 | play then pause keeps the track current; the end of A in queue [A, B] plays B |
| PanelNavigation.Initial | app/playback-context.tsx:43 | navigation starts in the sidebar with no registered panel |
| PanelNavigation.Register | app/playback-context.tsx:49-51 | registering adds the panel and keeps the active one |
| PanelNavigation.SetActive | app/playback-context.tsx:43 | the given panel becomes active and the registered panels are kept |
| PanelNavigation.HandleKey | app/playback-context.tsx:53-96 | an unavailable panel makes every key a no-op; registrations never change; the active panel changes only by `h` from the track list to the sidebar or `l` the other way |
| PanelNavigation.DownKeyMovesForward | app/playback-context.tsx:61-67 | `j`/ArrowDown focuses the next row of the same panel, wrapping from the last row to row 0, and row 0 when nothing in the panel is focused |
| PanelNavigation.UpKeyMovesBackward | app/playback-context.tsx:68-74 | `k`/ArrowUp focuses the previous row, wrapping from row 0 to the last, and row n-2 when nothing in the panel is focused |
| PanelNavigation.WrapUpDownInverse | app/playback-context.tsx:61-74 | wrapping up undoes wrapping down and vice versa |
| PanelNavigation.HKeySwitchesToSidebar | app/playback-context.tsx:75-84 | `h` in the track list activates the sidebar and focuses its first row when it shows any; in the sidebar `h` does nothing |
| PanelNavigation.LKeySwitchesToTracklist | app/playback-context.tsx:85-94 | `l` in the sidebar activates the track list and focuses its first row when it shows any; in the track list `l` does nothing |
| PanelNavigation.OtherKeysAreIgnored | app/playback-context.tsx:53-96 | any other key leaves navigator and focus unchanged and does not prevent the default |
| PanelNavigation.FiveRowExample | app/playback-context.tsx:61-74 | in a five-row track list, `j` from row 2 focuses row 3, and `k` twice from row 2 reaches row 0 |
| ListNavigation.HandleKeyDown | app/hooks/use-keyboard-navigation.ts:21-72 | without a container nothing happens; a focused row is always in range; `onNavigate` receives exactly the focused row; keys that move no focus never navigate |
| ListNavigation.DownStopsAtLastRow | app/hooks/use-keyboard-navigation.ts:34-40 | down focuses min(i+1, n-1): it stays on the last row, and goes to row 0 from no focus |
| ListNavigation.UpStopsAtFirstRow | app/hooks/use-keyboard-navigation.ts:41-47 | up focuses max(i-1, 0): it never moves before the first row |
| ListNavigation.SelectKeepsFocus | app/hooks/use-keyboard-navigation.ts:48-52 | Enter and Space call `onSelect` with the current index and move no focus |
| ListNavigation.ExitKeys | app/hooks/use-keyboard-navigation.ts:53-59 | `h` exits left and `l` exits right, with no focus change |
| ListNavigation.OtherKeysHaveNoEffect | app/hooks/use-keyboard-navigation.ts:61-62 | any other key has no effect at all |
| ListNavigation.ClampVersusWrap | app/hooks/use-keyboard-navigation.ts:34-47 | the clamping hook and the wrapping navigator agree away from the ends of a list; at the ends the clamp stays put where the wrap jumps to the other end; with no row focused, up goes to row 0 under the clamp but to row n-2 under the wrap when n > 2 (both row 0 when n ≤ 2) |
| Transport.TwoDigits | app/playback-controls.tsx:89 | two decimal digits whose value is the number |
| Transport.FormatTime | app/playback-controls.tsx:86-90 | the label of a time t ≥ 0 is ⌊t⌋/60 in decimal, a colon, and ⌊t⌋ mod 60 as exactly two digits |
| Transport.FormatTimeRoundTrip | app/playback-controls.tsx:86-90 | reading the `m:ss` label back gives the whole seconds of the time |
| Transport.ClickPercentage | app/playback-controls.tsx:94-96 | the percentage lies in [0, 100], is proportional to the offset inside the bar, and is 0 or 100 beyond either edge |
| Transport.SeekByClick | app/playback-controls.tsx:92-101 | with bar and audio mounted, the element position and exposed time get the same value, the clicked fraction of the duration, within [0, duration]; otherwise nothing changes |
| Transport.SeekByClickEnds | app/playback-controls.tsx:96-99 | clicking the left edge seeks to 0 and the right edge to the duration |
| Transport.MediaSeekTo | app/playback-controls.tsx:248-253 | only the exposed time can change; with an element and a requested time, the element position and the exposed time both become the requested time; otherwise nothing changes |
| Transport.MediaSeekIsUnclamped | app/playback-controls.tsx:248-253 | a requested time below 0 or past the duration is applied as given, while a click on the bar always lands within [0, duration] |
| Transport.SeekThenTimeUpdate | app/playback-controls.tsx:214-218 | a position report after a seek leaves the exposed time where the seek put it |
| Transport.MediaPlayPause | app/playback-controls.tsx:235-243 | with no track the actions are not registered; otherwise they request play or pause and then run the toggle |
| Transport.MediaPlayWhilePaused | app/playback-controls.tsx:235-238 | the play action on a paused session asks for play twice and ends playing |
| Transport.MediaPauseWhilePaused | app/playback-controls.tsx:240-243 | the pause action on a paused session asks for pause and then the toggle starts playback |
| Transport.PressButton | app/playback-controls.tsx:50-75 | with no current track all three buttons are inert; otherwise they run previous, toggle and next |
| Transport.ButtonsInertWithoutTrack | app/playback-controls.tsx:53-71 | on a fresh session no button changes anything |
| Transport.InitialVolume | app/playback-controls.tsx:126-135 | the control starts at volume 100, unmuted, with the element at full level |
| Transport.ApplyLevel | app/playback-controls.tsx:131-135 | the effect leaves the element's level at 0 when muted and at volume/100 otherwise |
| Transport.VolumeClick | app/playback-controls.tsx:137-148 | the clamped percentage becomes the volume, muted exactly when it is 0, and the element follows |
| Transport.ToggleMute | app/playback-controls.tsx:150-160 | with an element the mute flag flips, the volume is kept, and unmuting restores exactly volume/100 |
| Transport.ToggleMuteTwice | app/playback-controls.tsx:150-160 | muting then unmuting restores the control and the element's level |
| Transport.VolumeClickMutesAtZero | app/playback-controls.tsx:141-146 | a click at or left of the edge mutes; any click right of it unmutes with an audible level |
| NumberUtils.Clamp | lib/number-utils.ts:31-33 | the result lies in [lo, hi] when lo ≤ hi and is the value itself inside; below lo, or when hi ≤ lo, it is lo |
| NumberUtils.ClampExamples | __tests__/number-utils.test.ts:19-35 | the test file's clamp cases, including clamp(v, 10, 10) = 10 |
| NumberUtils.RandomBetween | lib/number-utils.ts:35-37 | for any draw in [0, 1) the result is an integer in [min, max], and min when min = max |
| NumberUtils.RandomBetweenReachesEveryValue | lib/number-utils.ts:35-37 | every integer in [min, max] is produced by some draw |
| NumberUtils.UnitIndex | lib/number-utils.ts:6 | the unit index is the i with 1024^i ≤ bytes < 1024^(i+1) |
| NumberUtils.FormatBytes | lib/number-utils.ts:2-11 | zero bytes is "0 B" |
| NumberUtils.FormatBytesOfExactMultiple | lib/number-utils.ts:2-11 | m·1024^i with 1 ≤ m < 1024 and i ≤ 3 formats as m, a space and the i-th unit |
| NumberUtils.FormatBytesValueBounds | lib/number-utils.ts:6-9 | the rounded value shown lies between 1 and 1024 |
| NumberUtils.FormatBytesJustBelowMegabyte | lib/number-utils.ts:6-10 | 1024·1024 − 1 bytes formats as "1024 KB": rounding can reach 1024 without moving to the next unit |
| NumberUtils.FormatBytesSmallExamples | __tests__/number-utils.test.ts:5-17 | "0 B" and "512 B" |
| NumberUtils.FormatBytesUnitExamples | __tests__/number-utils.test.ts:5-17 | "1 KB", "1 MB" and "1 GB" |
| NumberUtils.GetTimeAgo | lib/number-utils.ts:13-29 | under 60 s is exactly "just now"; 7 days or more is exactly the locale date |
| NumberUtils.TimeAgoLadder | lib/number-utils.ts:18-26 | minutes are ⌊s/60⌋ under an hour, hours ⌊s/3600⌋ under a day, days ⌊s/86400⌋ under a week |
| NumberUtils.TimeAgoExamples | __tests__/number-utils.test.ts:67-101 | the test file's cases: just now, 5m, 2h, 3d, and a date at 10 days |
| Sidebar.ClickDelete | app/optimistic-playlists.tsx:32-67 | a click while deleting (or in production) does nothing; otherwise exactly one server delete happens, a refresh comes last whatever the outcome, the flag is cleared, and navigation to / happens iff the playlist's page is open |
| Sidebar.DeleteIgnoredWhileDeleting | app/optimistic-playlists.tsx:33 | a second delete while one is in flight is ignored entirely |
| Sidebar.DeleteOrdering | app/optimistic-playlists.tsx:40-62 | navigation precedes the local removal, which precedes the server call, which precedes the refresh |
| Sidebar.NewPlaylist | app/optimistic-playlists.tsx:135-142 | the new playlist has the fresh id, name "New Playlist", an empty cover and both timestamps now |
| Sidebar.ClickAdd | app/optimistic-playlists.tsx:129-162 | a click while adding does nothing; otherwise the playlist is inserted locally, then created on the server, then refreshed, and the flag is cleared |
| Sidebar.AddIgnoredWhileAdding | app/optimistic-playlists.tsx:130 | a second add while one is in flight is ignored |
| Sidebar.AddOrdering | app/optimistic-playlists.tsx:145-158 | local insertion precedes navigation, which precedes the server create, which precedes the refresh |
| Sidebar.Mount | app/optimistic-playlists.tsx:125-127 | mounting registers the sidebar and keeps the active panel |
| Sidebar.Click | app/optimistic-playlists.tsx:172 | clicking the sidebar makes it the active panel |
| Sidebar.MountedSidebarTakesKeys | app/optimistic-playlists.tsx:125-127 | once mounted, the sidebar answers the down key |
| NowPlaying.Submit | app/now-playing.tsx:170-177 | submitting always closes the editor, and any submission carries the track, field and current value |
| NowPlaying.SubmitSendsOnlyRealChanges | app/now-playing.tsx:170-176 | something is submitted iff the editor was open and the trimmed value is non-empty and differs from the initial value |
| NowPlaying.KeyDown | app/now-playing.tsx:179-187 | Escape closes and restores the initial value; keys other than Enter and Escape do nothing |
| NowPlaying.EnterActsLikeBlur | app/now-playing.tsx:180-182 | Enter makes the same decision as blur, and also prevents the default |
| NowPlaying.EscapeThenSubmitSendsNothing | app/now-playing.tsx:183-186 | after Escape no submission can follow |
| NowPlaying.Rerender | app/now-playing.tsx:156-160 | a change of initial value or track resets value, editing and check flags and keeps the check-mark effect's memory and timer; otherwise nothing changes |
| NowPlaying.RerenderIdempotent | app/now-playing.tsx:156-160 | rendering twice with the same props is the same as once |
| NowPlaying.SwitchingTrackDiscardsEdit | app/now-playing.tsx:156-160 | switching track during an edit discards it, so nothing is submitted |
| NowPlaying.ActionSettled | app/now-playing.tsx:162-168 | the effect runs only when `state.success` changes: a change to success shows the mark and starts the timer; a change to failure clears the timer and keeps the mark as it was; otherwise the editor is unchanged. Only the mark, the timer and the remembered value can change, and a pending timer always belongs to a success |
| NowPlaying.CheckTimerFired | app/now-playing.tsx:162-168 | a pending timer hides the mark; a cleared one does nothing; nothing but the mark and the timer changes |
| NowPlaying.SuccessShowsCheckUntilTimer | app/now-playing.tsx:162-168 | a success after a non-success shows the mark, and the timer hides it again, leaving the rest of the editor as it was |
| NowPlaying.RepeatedSuccessShowsNothing | app/now-playing.tsx:162-168 | a second success in a row does not show the mark again once the timer has hidden it |
| NowPlaying.FailureBeforeTimerKeepsCheck | app/now-playing.tsx:162-168 | a failure settling while the mark is shown clears the timer, so the mark stays |
| NowPlaying.InitialValue | app/now-playing.tsx:93-128 | the bpm field shows a number that parses back to the stored bpm, and is empty with none |
| NowPlaying.ImageGate | app/now-playing.tsx:60-70 | a chosen file is submitted iff it is at most 5·1024·1024 bytes, otherwise the input is cleared; no file does nothing |
| NowPlaying.ShownCover | app/now-playing.tsx:33-42 | after a successful upload the uploaded image is shown, else the track's image; a missing or empty chosen URL shows `/placeholder.svg`, as the falsy-URL fallback does, and any other result is the chosen URL |
| NowPlaying.InitialCoverIsTracks | app/now-playing.tsx:33 | before any upload the track's own image is shown |
| Store.MaxOrder | app/actions.ts:134-141 | the largest order among the playlist's rows, attained by one of them, and none for an empty playlist |
| Store.AddToPlaylist | app/actions.ts:116-160 | a duplicate pair fails with "Song is already in the playlist"; a missing playlist or song fails; every failure changes nothing; success appends one row and keeps the tables consistent |
| Store.AddedRowComesLast | app/actions.ts:134-150 | the appended row links the pair; its order exceeds every order already in the playlist and is one more than one of them (the maximum), or 1 in an empty playlist |
| Store.AddTwiceRefused | app/actions.ts:119-132 | adding the same pair again is refused and changes nothing |
| Store.RemoveSongFromPlaylist | lib/db/queries.ts:80-87 | exactly the rows linking both ids are removed; songs and playlists are unchanged and consistency is kept |
| Store.RemoveUndoesAdd | lib/db/queries.ts:80-83 | removing a just-added pair restores the database |
| Store.FilterKeepsNoDuplicates | lib/db/queries.ts:80-83 | removing rows cannot create a duplicate pair |
| Store.WithoutPlaylist | app/actions.ts:91-101 | the playlist and all of its rows are gone, nothing else is, and consistency is kept |
| Store.DeletePlaylistAction | app/actions.ts:85-114 | in production nothing changes and an error is returned; otherwise the cascade delete is applied |
| Store.DeletePlaylist | lib/db/queries.ts:105-113 | deleting the rows first and then the playlist is the cascade delete |
| Store.DeleteKeepsOtherPlaylists | lib/db/queries.ts:105-109 | every other playlist keeps exactly its rows, in order |
| Store.CreatePlaylistAction | app/actions.ts:10-28 | in production, or with a taken id, nothing changes and an error is returned; otherwise one playlist with no cover is added; consistency is kept |
| Store.UpdatePlaylistNameAction | app/actions.ts:63-83 | in production nothing changes; otherwise only the named playlist's name changes; consistency is kept |
| Store.UploadPlaylistCoverAction | app/actions.ts:30-61 | the production guard comes before the missing-file error; with a file only that playlist's cover changes, to the returned URL; consistency is kept |
| Store.UpdatePlaylist | lib/db/queries.ts:95-103 | only the playlist with the id changes: name, update time, and cover if one is given, with its id and creation time kept; consistency is kept |
| Store.UpdateTrackAction | app/actions.ts:162-187 | an unparsable bpm fails with "bpm should be a valid number" and writes nothing; otherwise other songs, playlists and links are untouched, and the track's row gets the parsed bpm or, for a text field, exactly `SetText` of the typed value |
| Store.SetText | app/actions.ts:176-177 | `{[field]: value}` writes the field's own column, which then holds the typed text; every other text column and every non-text column keeps its value |
| Store.SavedFieldReadsBack | app/actions.ts:168-177 | after a successful save the panel shows a value that reads back as what was stored |
| Store.UpdateTrackImageAction | app/actions.ts:189-215 | a missing track id or file fails before any write; otherwise only that track's image changes, to the returned URL |
| Store.UploadedCoverIsShownAndStored | app/actions.ts:202-210 | after an image upload the stored and the shown cover are the uploaded URL |
| Store.GetAllSongs | lib/db/queries.ts:6-16 | all songs, none lost or added, sorted by name under the database's collation, which may be any total preorder on strings |
| Store.GetAllSongsInCodePointOrder | lib/db/queries.ts:8 | under the code-point ("C") collation, the songs come in code-point order of their names |
| Store.GetAllPlaylists | lib/db/queries.ts:27-33 | all playlists, none lost or added, newest first |
| Store.GetPlaylistWithSongs | lib/db/queries.ts:35-71 | none iff no playlist has the id; otherwise songs by ascending order, each carrying its order, whose rows are exactly the playlist's rows (as a multiset: each appears once per stored row), each song being the stored song row itself, with their count and the summed duration |
| Store.PlaylistDurationIsSumOfItsSongs | lib/db/queries.ts:54-60 | the duration is the sum of the durations of the playlist's rows' songs, whatever their order |
| Store.RowsDurationPermutation | lib/db/queries.ts:60 | the summed duration does not depend on the order of the rows |
| Sorting.Sort | lib/db/queries.ts:8 | the result is a permutation of the input |
| Sorting.SortSorted | lib/db/queries.ts:8 | under a total preorder the result is sorted |
| Sorting.LexLeIsTotalPreorder | lib/db/queries.ts:8 | code-point order on names is a total preorder |
| Highlight.SplitAround | lib/utils.tsx:5 | the pieces concatenate to the text; odd pieces are occurrences of the query; even pieces contain none, and no occurrence in the text starts inside an even piece, so the occurrences are the leftmost non-overlapping ones |
| Highlight.OverlappingOccurrencesTakeTheLeftmost | lib/utils.tsx:5 | splitting "aaa" around "aa" gives "", "aa", "a" |
| Highlight.HighlightText | lib/utils.tsx:3-16 | the text is returned unchanged iff the query is missing or empty; otherwise the segments concatenate to the text and a segment is marked iff it equals the query ignoring case |
| Highlight.MarkedPiecesAreOccurrences | lib/utils.tsx:5-8 | exactly every other segment is marked, no unmarked segment contains the query, and no occurrence starts inside an unmarked segment |
| Highlight.NoOccurrenceSinglePiece | lib/utils.tsx:5-8 | a text without the query comes back as one unmarked segment |
| Uri.EncodeComponent | app/playback-context.tsx:186 | every character of the result is an unreserved character or part of a `%XY` escape, and the result is at least as long as the input |
| Uri.DecodeComponent | app/playback-context.tsx:186 | the percent-decoding that recovers the file name from the route segment built here: a decoded string is never longer than its source, and a string without `%` decodes to itself |
| Uri.DecodeEncode | app/playback-context.tsx:186 | percent-decoding an encoded component gives back the original string |
| Uri.EncodedHasNoSlash | app/playback-context.tsx:186 | an encoded component contains no slash |
| Text.Trim | app/now-playing.tsx:171 | the result is the slice of the string that starts where the leading whitespace ends; every character before and after that slice is whitespace, and neither end of a non-empty result is whitespace |
| Text.TrimEmptyIffAllWhitespace | app/now-playing.tsx:171 | a string trims to empty iff it is all whitespace |
| Text.ParseInt | app/actions.ts:169 | a string with no digit gives NaN; a negative result needs a minus sign in the string; a plain decimal numeral gives its value |
| Text.ParseIntReadsLeadingNumeral | app/actions.ts:169-173 | an integer's decimal form followed by anything that does not start with a digit parses to that integer: whatever follows the leading numeral is ignored |
| Text.ParseIntNeedsLeadingDigit | app/actions.ts:169-172 | when the first character after leading whitespace (or after a sign there) is not a digit the result is NaN, so the bpm is refused whatever digits come later |
| Text.ParseIntIgnoresTrailingLetters | app/actions.ts:169-173 | "12abc" is stored as 12 |
| Text.ParseIntTruncatesDecimals | app/actions.ts:169-173 | "3.7" is stored as 3 |
| Text.ParseIntStopsAtSeparator | app/actions.ts:169-173 | "1_000" is stored as 1 |
| Text.ParseIntRefusesLeadingLetters | app/actions.ts:169-172 | "abc1" is refused |
| Text.ParseIntRoundTrip | app/actions.ts:168-174 | parsing the decimal rendering of an integer gives it back |
| Text.NatToStringRoundTrip | app/playback-controls.tsx:89 | the digits of a rendered number read back as that number |
| DbConfig.PickUrl | lib/db/drizzle.ts:8 | POSTGRES_URL whenever it is set, even to "", and DATABASE_URL otherwise |
| DbConfig.SslFor | lib/db/drizzle.ts:14-22 | "require" or "disable" in any letter case decide; otherwise a URL containing supabase.com or pooler gets require, and anything else is unset |
| DbConfig.Configure | lib/db/drizzle.ts:8-31 | fails with the fixed message iff the chosen URL is missing or empty; otherwise uses it, with the fixed pool limits, and includes `ssl` only when a mode was chosen |
| DbConfig.EmptyPostgresUrlIsAnError | lib/db/drizzle.ts:8-11 | an empty POSTGRES_URL hides DATABASE_URL and is an error |
| DbConfig.FallsBackToDatabaseUrl | lib/db/drizzle.ts:8 | with POSTGRES_URL unset, DATABASE_URL is used |
| DbConfig.DisableWinsOverHostedUrl | lib/db/drizzle.ts:17-19 | `disable` turns TLS off even for a hosted provider's URL |
| DbConfig.HostedUrlGetsTls | lib/db/drizzle.ts:20-21 | a URL naming supabase.com in any letter case gets `require` |
| DbConfig.UpperCaseRequire | lib/db/drizzle.ts:14-16 | `REQUIRE` counts as `require` |
| DbConfig.LocalUrlOmitsSsl | lib/db/drizzle.ts:22-30 | a plain local URL with no setting leaves the `ssl` key out |

## Left out

- The audio element itself is left out: its asynchronous `play()` promise, `AbortError` handling, metadata loading, position-state updates and the `previoustrack`/`nexttrack` media actions, which are the plain next/previous operations. Play and pause requests are recorded as effects.
- React machinery is left out: hook closures, state batching, effect lifecycles, rendering and styling. The guard flags take effect immediately. The editor's two effects are modelled as steps: the reset effect is `NowPlaying.Rerender`, and the check-mark effect is `NowPlaying.ActionSettled` with its timer `NowPlaying.CheckTimerFired`.
- DOM focus is left out: `querySelectorAll` and `focus()` become a row count and a focused index, where -1 means no row is focused.
- Playback.HandleKey and PanelNavigation.HandleKey: with no rows in a mounted panel the source computes `% 0`, and calling `focus()` on the resulting `undefined` throws a `TypeError`; the model requires at least one row for the move keys instead.
- ListNavigation.HandleKeyDown: requires at least one row for the move keys, for a similar reason: with no rows the hook calls `focus()` on `items[-1]` or `items[0]`, both `undefined`, and throws. The hook never writes the active panel; it only passes the panel through, so the model has no panel state at all.
- Floating-point detail is left out. Times, percentages and volumes are exact reals, so rounding error is not modelled. Pixel geometry becomes an offset and a bar width, which the seek and volume functions take to be positive.
- NumberUtils.FormatBytes: its contract speaks only of zero. Exact multiples, value bounds and examples are proved as lemmas, because `Math.log` and two-decimal rounding are modelled by exact integer arithmetic. Counts of 1024^4 or more, and negative counts, are outside the model: the source indexes past its unit table there.
- NumberUtils.GetTimeAgo: it takes the elapsed whole seconds instead of two dates. `toLocaleDateString` is an opaque result.
- Highlight.HighlightText: requires the query to be ASCII without regular-expression metacharacters. The source builds a regular expression from the raw query, so metacharacters, and non-ASCII case folding such as the Kelvin sign, behave differently there.
- Text.ParseInt models only the decimal part of `parseInt`: leading whitespace, a sign and leading digits. A `0x` prefix, which `parseInt` reads as hexadecimal, is not modelled. The result is an exact integer, whereas `parseInt` returns a double: from 2^53 upwards `parsedValue.toString()` stores a rounded numeral ("9007199254740993" is stored as "9007199254740992").
- Text.ParseIntRoundTrip and Store.SavedFieldReadsBack: they read back the exact integer, which the source does only below 2^53. The integer width of the bpm column is not part of this model either.
- `encodeURIComponent` is modelled on Unicode scalar values. Lone surrogates, where it throws, cannot occur in Dafny strings.
- Transport.ToggleMute and Transport.ToggleMuteTwice model a handler the page never calls: the speaker button only shows or hides the volume slider (app/playback-controls.tsx:172), so muting happens only through a click at the slider's left edge.
- Store.GetAllSongs: the order of names is the database's collation, a parameter here. The collation of the `songs.name` column is not part of this model; `Store.GetAllSongsInCodePointOrder` instantiates it with code-point order.
- Store.UpdateTrackAction: the field name is one of the six fields the panel edits. The source accepts any field name and lets the database reject unknown columns.
- Store.GetPlaylistWithSongs: it requires every row to name an existing song. The schema file, with its primary and foreign keys, is not part of this model. The key constraints are modelled as explicit failure branches (a duplicate pair or id, a missing playlist or song) in the actions that would violate them.
- Backend I/O is left out: SQL execution, caching and revalidation, blob storage, the router and the favourites `fetch`. Their results are parameters (`Outcome`, blob URLs, fresh ids, timestamps).
- `searchSongs`, `getSongById`, `getRecentlyAddedSongs`, `addSongToPlaylist` and the cache-clearing helpers are not modelled: each is a single database or cache call with no logic of its own (`searchSongs` relies on Postgres trigram similarity).
- Seeding, authentication, API routes other than the audio route's decoding, and the UI wiring files are not modelled.
- `lib/string-utils` and `lib/helpers` are not part of this model, so their tests are not modelled.
- Creating the Postgres client and Drizzle instance is left out; `DbConfig.Configure` stops at the options it would receive.
