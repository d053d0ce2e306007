/**
 * The now-playing panel: the cover with its size-gated upload, and the
 * inline field editor used for each of the current track's fields (click to
 * edit; Enter or leaving the field submits a real change; Escape cancels; a
 * new track or new stored value resets the editor).
 */
module NowPlaying {
  import opened Wrappers
  import opened Library
  import Text

  // ---------------------------------------------------------------------------
  // Inline field editor
  // ---------------------------------------------------------------------------

  /**
   * One editor: whether the text input is shown, the text being edited, the
   * success check mark, and the two properties it was rendered with. Two
   * more fields belong to the check-mark effect: the `state.success` value it
   * last ran for (React re-runs it only when that value changes), and
   * whether the timer it started is still pending.
   */
  datatype Editor = Editor(
    isEditing: bool,
    value: string,
    showCheck: bool,
    initialValue: string,
    trackId: SongId,
    lastSuccess: bool,
    timerPending: bool)

  /** The form an editor submits: the track, the field's name, and the new text. */
  datatype Submission = Submission(trackId: SongId, field: string, value: string)

  /** An editor as first rendered, and as the reset effect leaves it. */
  function Fresh(initialValue: string, trackId: SongId): (e: Editor)
    ensures !e.isEditing && !e.showCheck && e.value == initialValue
    ensures e.initialValue == initialValue && e.trackId == trackId
    ensures !e.lastSuccess && !e.timerPending
  {
    Editor(false, initialValue, false, initialValue, trackId, false, false)
  }

  /** A click on the shown value opens the input; the value is only shown while not editing. */
  function Open(e: Editor): (r: Editor)
    ensures r.isEditing && (e.isEditing ==> r == e)
    ensures r.value == e.value && r.initialValue == e.initialValue && r.trackId == e.trackId
  {
    if e.isEditing then e else e.(isEditing := true)
  }

  /** Typing into the input replaces the edited text. */
  function Type(e: Editor, text: string): (r: Editor)
    requires e.isEditing
    ensures r.value == text && r.isEditing
  {
    e.(value := text)
  }

  /** The edit is worth sending: not blank after trimming and different from the stored value. */
  predicate IsRealChange(e: Editor) {
    !Text.AllWhitespace(e.value) && e.value != e.initialValue
  }

  /**
   * `handleSubmit`: the editor always closes; the form (which exists only
   * while the input is shown) is submitted unless the trimmed text is empty
   * or the text equals the stored value.
   */
  function Submit(e: Editor, field: string): (r: (Editor, Option<Submission>))
    ensures r.0 == e.(isEditing := false)
    ensures r.1.Some? ==> r.1.value == Submission(e.trackId, field, e.value)
  {
    var closed := e.(isEditing := false);
    if Text.Trim(e.value) == "" || e.value == e.initialValue then (closed, None)
    else if e.isEditing then (closed, Some(Submission(e.trackId, field, e.value)))
    else (closed, None)
  }

  /** The form is submitted exactly for a real change made while editing. */
  lemma SubmitSendsOnlyRealChanges(e: Editor, field: string)
    ensures Submit(e, field).1.Some? <==> e.isEditing && IsRealChange(e)
  {
    Text.TrimEmptyIffAllWhitespace(e.value);
  }

  /** The input's key handler: Enter submits (suppressing the form's own submit), Escape cancels the edit. */
  function KeyDown(e: Editor, field: string, key: string): (r: (Editor, Option<Submission>, bool))
    ensures key == "Escape" ==> r == (e.(isEditing := false, value := e.initialValue), None, false)
    ensures key != "Enter" && key != "Escape" ==> r == (e, None, false)
  {
    if key == "Enter" then
      var (closed, sent) := Submit(e, field);
      (closed, sent, true)
    else if key == "Escape" then (e.(isEditing := false, value := e.initialValue), None, false)
    else (e, None, false)
  }

  /** Leaving the input submits as Enter does. */
  function Blur(e: Editor, field: string): (r: (Editor, Option<Submission>))
    ensures !r.0.isEditing
  {
    Submit(e, field)
  }

  /** Enter and leaving the input make the same decision and leave the same editor. */
  lemma EnterActsLikeBlur(e: Editor, field: string)
    ensures var (closed, sent, prevented) := KeyDown(e, field, "Enter");
      (closed, sent) == Blur(e, field) && prevented
  {
  }

  /** After Escape the editor is closed on the stored value, so leaving or submitting sends nothing. */
  lemma EscapeThenSubmitSendsNothing(e: Editor, field: string)
    ensures var closed := KeyDown(e, field, "Escape").0;
      closed.value == e.initialValue && !closed.isEditing && Submit(closed, field).1 == None
  {
  }

  /**
   * The check-mark effect, run after the form action settles with
   * `success`. React runs it only when `success` differs from the value it
   * last ran for; a re-run first clears the previous timer (the cleanup),
   * then on success shows the mark and starts a new timer.
   */
  function ActionSettled(e: Editor, success: bool): (r: Editor)
    ensures r.lastSuccess == success
    ensures success == e.lastSuccess ==> r == e
    ensures success && !e.lastSuccess ==> r.showCheck && r.timerPending
    ensures !success && e.lastSuccess ==> !r.timerPending && r.showCheck == e.showCheck
    ensures (e.timerPending ==> e.lastSuccess) ==> (r.timerPending ==> r.lastSuccess)
    ensures r.(showCheck := e.showCheck, lastSuccess := e.lastSuccess, timerPending := e.timerPending) == e
  {
    if success == e.lastSuccess then e
    else if success then e.(showCheck := true, lastSuccess := true, timerPending := true)
    else e.(lastSuccess := false, timerPending := false)
  }

  /** The effect's two-second timer: hides the mark if it was not cleared first. */
  function CheckTimerFired(e: Editor): (r: Editor)
    ensures !r.timerPending
    ensures e.timerPending ==> !r.showCheck
    ensures !e.timerPending ==> r == e
    ensures r.(showCheck := e.showCheck, timerPending := e.timerPending) == e
  {
    if e.timerPending then e.(showCheck := false, timerPending := false) else e
  }

  /**
   * The reset effect, which runs when the editor's stored value or track
   * changes: the editor goes back to showing the new stored value. The
   * action state, and so the check-mark effect's memory and timer, are kept.
   */
  function Rerender(e: Editor, initialValue: string, trackId: SongId): (r: Editor)
    ensures initialValue == e.initialValue && trackId == e.trackId ==> r == e
    ensures initialValue != e.initialValue || trackId != e.trackId ==>
      r == Fresh(initialValue, trackId).(lastSuccess := e.lastSuccess, timerPending := e.timerPending)
  {
    if initialValue == e.initialValue && trackId == e.trackId then e
    else e.(isEditing := false, value := initialValue, showCheck := false, initialValue := initialValue, trackId := trackId)
  }

  /** A save that succeeds after one that did not shows the mark, and the timer then hides it. */
  lemma SuccessShowsCheckUntilTimer(e: Editor)
    requires !e.lastSuccess
    ensures ActionSettled(e, true).showCheck
    ensures var hidden := CheckTimerFired(ActionSettled(e, true));
      !hidden.showCheck && hidden.(showCheck := e.showCheck, lastSuccess := false, timerPending := e.timerPending) == e
  {
  }

  /**
   * A second successful save in a row shows no mark: `state.success` stays
   * `true`, so the effect does not run again once the timer has hidden the first.
   */
  lemma RepeatedSuccessShowsNothing(e: Editor)
    requires !e.lastSuccess
    ensures var hidden := CheckTimerFired(ActionSettled(e, true));
      ActionSettled(hidden, true) == hidden && !ActionSettled(hidden, true).showCheck
  {
  }

  /**
   * A failed save that settles while the mark is shown clears the pending
   * timer, so the mark stays until the next reset or success.
   */
  lemma FailureBeforeTimerKeepsCheck(e: Editor)
    requires !e.lastSuccess
    ensures var failed := ActionSettled(ActionSettled(e, true), false);
      failed.showCheck && CheckTimerFired(failed).showCheck
  {
  }

  /** Re-rendering with the same properties twice is the same as once. */
  lemma RerenderIdempotent(e: Editor, initialValue: string, trackId: SongId)
    ensures Rerender(Rerender(e, initialValue, trackId), initialValue, trackId) == Rerender(e, initialValue, trackId)
  {
  }

  /** A pending edit is discarded when another track becomes current, and nothing is sent for it. */
  lemma SwitchingTrackDiscardsEdit(e: Editor, field: string, other: SongId, initialValue: string)
    requires e.isEditing && other != e.trackId
    ensures var r := Rerender(e, initialValue, other); !r.isEditing && r.value == initialValue && Submit(r, field).1 == None
  {
  }

  /** The fields the panel edits, with the text each editor starts from. */
  datatype Field = Name | Artist | Genre | Album | Bpm | Key

  function FieldName(f: Field): string {
    match f
    case Name => "name"
    case Artist => "artist"
    case Genre => "genre"
    case Album => "album"
    case Bpm => "bpm"
    case Key => "key"
  }

  /** The stored value each editor shows: missing optional fields as the empty string, the bpm in decimal. */
  function InitialValue(t: Song, f: Field): (r: string)
    ensures f == Bpm && t.bpm.Some? ==> Text.ParseInt(r) == Some(t.bpm.value)
    ensures f == Bpm && t.bpm.None? ==> r == ""
  {
    match f
    case Name => t.name
    case Artist => t.artist
    case Genre => t.genre.GetOr("")
    case Album => t.album.GetOr("")
    case Bpm =>
      if t.bpm.Some? then
        Text.ParseIntRoundTrip(t.bpm.value);
        Text.IntToString(t.bpm.value)
      else ""
    case Key => t.key.GetOr("")
  }

  // ---------------------------------------------------------------------------
  // Cover image
  // ---------------------------------------------------------------------------

  /** The largest cover accepted for upload: 5 MiB. */
  const MaxImageBytes: nat := 5 * 1024 * 1024

  /** What choosing a file does: nothing when none was chosen, submit it, or reject it and clear the input. */
  datatype GateOutcome = NoFile | SubmitUpload | RejectAndClear

  /** The file input's change handler; `chosen` is the picked file's size, if any. */
  function ImageGate(chosen: Option<nat>): (r: GateOutcome)
    ensures r == SubmitUpload <==> chosen.Some? && chosen.value <= MaxImageBytes
    ensures r == RejectAndClear <==> chosen.Some? && chosen.value > MaxImageBytes
    ensures r == NoFile <==> chosen.None?
  {
    if chosen.None? then NoFile
    else if chosen.value <= 5 * 1024 * 1024 then SubmitUpload
    else RejectAndClear
  }

  /** The panel's record of the last upload's result. */
  datatype UploadState = UploadState(success: bool, imageUrl: string)

  const InitialUpload := UploadState(false, "")

  const Placeholder := "/placeholder.svg"

  /** The cover shown: the uploaded image after a successful upload, otherwise the track's, else a placeholder. */
  function ShownCover(u: UploadState, t: Song): (r: string)
    ensures u.success && u.imageUrl != "" ==> r == u.imageUrl
    ensures !u.success && t.imageUrl.Some? && t.imageUrl.value != "" ==> r == t.imageUrl.value
    ensures r != Placeholder ==> (u.success && r == u.imageUrl) || (!u.success && t.imageUrl == Some(r))
    ensures (if u.success then u.imageUrl else t.imageUrl.GetOr("")) == "" ==> r == Placeholder
  {
    var url := if u.success then Some(u.imageUrl) else t.imageUrl;
    if url.None? || url.value == "" then Placeholder else url.value
  }

  /** Before any upload the panel shows the track's own cover. */
  lemma InitialCoverIsTracks(t: Song)
    requires t.imageUrl.Some? && t.imageUrl.value != ""
    ensures ShownCover(InitialUpload, t) == t.imageUrl.value
  {
  }
}
