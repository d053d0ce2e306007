/**
 * The transport bar under the player: the clock labels, the clickable
 * progress bar, the volume control with its mute toggle, the three playback
 * buttons, and the operating system's media-session actions.
 */
module Transport {
  import opened Wrappers
  import Text
  import NumberUtils
  import Playback

  // ---------------------------------------------------------------------------
  // Clock labels
  // ---------------------------------------------------------------------------

  /** `Math.trunc`. */
  function Trunc(x: real): int {
    if x >= 0.0 then x.Floor else -((-x).Floor)
  }

  /** JavaScript's `%` on numbers: the remainder takes the sign of the dividend. */
  function JsRem(x: real, m: real): real
    requires m != 0.0
  {
    x - m * Trunc(x / m) as real
  }

  /**
   * `formatTime(time)`: whole minutes, a colon, and the whole seconds padded
   * to two digits. For a non-negative time the label is the whole minutes,
   * then exactly two digits holding the remaining whole seconds (always
   * below 60).
   */
  function FormatTime(t: real): (r: string)
    ensures t >= 0.0 ==> r == Text.NatToString(t.Floor / 60) + ":" + TwoDigits(t.Floor % 60)
  {
    var minutes := (t / 60.0).Floor;
    var seconds := JsRem(t, 60.0).Floor;
    var clock := Text.IntToString(minutes) + ":" + Text.PadStart(Text.IntToString(seconds), 2, '0');
    if t >= 0.0 then ClockParts(t); clock else clock
  }

  /** Two decimal digits for a value below 100. */
  function TwoDigits(n: nat): (r: string)
    requires n < 100
    ensures |r| == 2 && Text.AllDigits(r) && Text.DigitsValue(r) == n
  {
    var r := [Text.DigitChar(n / 10), Text.DigitChar(n % 10)];
    assert r[..1][..0] == [];
    assert Text.DigitsValue(r[..1]) == n / 10;
    assert Text.DigitsValue(r) == (n / 10) * 10 + n % 10;
    r
  }

  /** Reads `m:ss` back as a number of seconds; anything else is `None`. */
  function ParseClock(s: string): Option<nat> {
    if |s| >= 4 && s[|s| - 3] == ':' && Text.AllDigits(s[..|s| - 3]) && Text.AllDigits(s[|s| - 2..]) then
      Some(Text.DigitsValue(s[..|s| - 3]) * 60 + Text.DigitsValue(s[|s| - 2..]))
    else None
  }

  lemma PadSeconds(sec: nat)
    requires sec < 60
    ensures Text.PadStart(Text.IntToString(sec), 2, '0') == TwoDigits(sec)
  {
    if sec >= 10 {
      assert Text.NatToString(sec) == Text.NatToString(sec / 10) + [Text.DigitChar(sec % 10)];
    }
  }

  /** For a non-negative time the clock's two numbers are ⌊t⌋ div 60 and ⌊t⌋ mod 60. */
  lemma ClockParts(t: real)
    requires t >= 0.0
    ensures (t / 60.0).Floor == t.Floor / 60 && JsRem(t, 60.0).Floor == t.Floor % 60
    ensures Text.PadStart(Text.IntToString(t.Floor % 60), 2, '0') == TwoDigits(t.Floor % 60)
  {
    var n := t.Floor;
    assert (t / 60.0).Floor == n / 60;
    assert Trunc(t / 60.0) == n / 60;
    assert JsRem(t, 60.0).Floor == n % 60;
    PadSeconds(n % 60);
  }

  /** The label of a non-negative time reads back as its whole seconds. */
  lemma FormatTimeRoundTrip(t: real)
    requires t >= 0.0
    ensures ParseClock(FormatTime(t)) == Some(t.Floor)
  {
    LabelRoundTrip(t.Floor);
  }

  lemma LabelRoundTrip(n: nat)
    ensures ParseClock(Text.NatToString(n / 60) + ":" + TwoDigits(n % 60)) == Some(n)
  {
    ParseClockOfLabel(n / 60, n % 60);
  }

  lemma ParseClockOfLabel(minutes: nat, seconds: nat)
    requires seconds < 60
    ensures ParseClock(Text.NatToString(minutes) + ":" + TwoDigits(seconds)) == Some(minutes * 60 + seconds)
  {
    var m := Text.NatToString(minutes);
    var s := m + ":" + TwoDigits(seconds);
    assert s[..|s| - 3] == m;
    assert s[|s| - 2..] == TwoDigits(seconds);
    Text.NatToStringRoundTrip(minutes);
  }

  // ---------------------------------------------------------------------------
  // Progress bar and seeking
  // ---------------------------------------------------------------------------

  /**
   * The position of a click on a bar of the given width, as a percentage
   * clamped to `[0, 100]`; `x` is the click's offset from the bar's left edge.
   */
  function ClickPercentage(x: real, width: real): (p: real)
    requires width > 0.0
    ensures 0.0 <= p <= 100.0
    ensures 0.0 <= x <= width ==> p * width == x * 100.0
    ensures x <= 0.0 ==> p == 0.0
    ensures x >= width ==> p == 100.0
  {
    var raw := x / width * 100.0;
    assert x <= 0.0 ==> raw <= 0.0;
    assert x >= width ==> raw >= 100.0;
    NumberUtils.Clamp(raw, 0.0, 100.0)
  }

  /**
   * `handleProgressChange`: with the bar and the audio element mounted, the
   * click sets both the element's position and the exposed time to the
   * clicked fraction of the duration. `position` is the element's position.
   */
  function SeekByClick(s: Playback.Session, barMounted: bool, position: real, x: real, width: real): (r: (Playback.Session, real))
    requires width > 0.0
    ensures !(barMounted && s.hasAudio) ==> r == (s, position)
    ensures barMounted && s.hasAudio ==>
      && r.0 == s.(currentTime := r.1)
      && r.1 * 100.0 == ClickPercentage(x, width) * s.duration
      && (s.duration >= 0.0 ==> 0.0 <= r.1 <= s.duration)
  {
    if barMounted && s.hasAudio then
      var newTime := ClickPercentage(x, width) / 100.0 * s.duration;
      (s.(currentTime := newTime), newTime)
    else (s, position)
  }

  /** Clicking the left edge rewinds to the start; clicking the right edge seeks to the end. */
  lemma SeekByClickEnds(s: Playback.Session, position: real, width: real)
    requires width > 0.0 && s.hasAudio
    ensures SeekByClick(s, true, position, 0.0, width).1 == 0.0
    ensures SeekByClick(s, true, position, width, width).1 == s.duration
  {
  }

  /**
   * The media-session `seekto` action: when the element is mounted and the
   * request carries a time, both the element and the exposed time take it,
   * unclamped.
   */
  function MediaSeekTo(s: Playback.Session, position: real, seekTime: Option<real>): (r: (Playback.Session, real))
    ensures r.0 == s.(currentTime := r.0.currentTime)
    ensures s.hasAudio && seekTime.Some? ==> r.1 == seekTime.value && r.0.currentTime == r.1
    ensures !(s.hasAudio && seekTime.Some?) ==> r == (s, position)
  {
    if s.hasAudio && seekTime.Some? then (s.(currentTime := seekTime.value), seekTime.value)
    else (s, position)
  }

  /**
   * Unlike a click on the bar, which always lands within `[0, duration]`, a
   * `seekto` request outside that range is applied as given.
   */
  lemma MediaSeekIsUnclamped(s: Playback.Session, position: real, t: real)
    requires s.hasAudio && s.duration >= 0.0 && (t < 0.0 || t > s.duration)
    ensures var (s1, p1) := MediaSeekTo(s, position, Some(t));
      p1 == t && s1.currentTime == t && !(0.0 <= p1 <= s.duration)
    ensures forall x: real, width: real {:trigger SeekByClick(s, true, position, x, width)} :: width > 0.0 ==>
      0.0 <= SeekByClick(s, true, position, x, width).1 <= s.duration
  {
  }

  /** A `timeupdate` after a seek reports the sought position, so the exposed time stays put. */
  lemma SeekThenTimeUpdate(s: Playback.Session, position: real, t: real)
    requires s.hasAudio
    ensures var (s1, p1) := MediaSeekTo(s, position, Some(t)); Playback.TimeUpdate(s1, p1) == s1
  {
  }

  // ---------------------------------------------------------------------------
  // Media-session actions
  // ---------------------------------------------------------------------------

  /**
   * The media-session `play` and `pause` actions: the element is asked to play
   * (or pause) and then the session's play/pause toggle runs. The actions are
   * registered only while a track is current.
   */
  function MediaPlayPause(s: Playback.Session, play: bool): (r: Playback.Step)
    ensures s.current.None? ==> r == Playback.Step(s, [])
    ensures s.current.Some? && !s.hasAudio ==> r == Playback.Step(s, [])
    ensures s.current.Some? && s.hasAudio ==>
      && r.session.isPlaying == !s.isPlaying
      && |r.effects| == 2
      && r.effects[0] == (if play then Playback.RequestPlay else Playback.RequestPause)
  {
    if s.current.None? then Playback.Step(s, [])
    else
      var toggled := Playback.TogglePlayPause(s);
      var request := if !s.hasAudio then [] else if play then [Playback.RequestPlay] else [Playback.RequestPause];
      Playback.Step(toggled.session, request + toggled.effects)
  }

  /**
   * The `play` action on a paused session issues two play requests: the
   * action's own and the toggle's.
   */
  lemma MediaPlayWhilePaused(s: Playback.Session)
    requires s.current.Some? && s.hasAudio && !s.isPlaying
    ensures MediaPlayPause(s, true).effects == [Playback.RequestPlay, Playback.RequestPlay]
    ensures MediaPlayPause(s, true).session.isPlaying
  {
  }

  /**
   * The `pause` action on a paused session asks the element to pause and then
   * the toggle starts playback again.
   */
  lemma MediaPauseWhilePaused(s: Playback.Session)
    requires s.current.Some? && s.hasAudio && !s.isPlaying
    ensures MediaPlayPause(s, false).effects == [Playback.RequestPause, Playback.RequestPlay]
    ensures MediaPlayPause(s, false).session.isPlaying
  {
  }

  // ---------------------------------------------------------------------------
  // Playback buttons
  // ---------------------------------------------------------------------------

  /** The previous, play/pause and next buttons are enabled only while a track is current. */
  predicate ButtonsEnabled(s: Playback.Session) {
    s.current.Some?
  }

  datatype Button = Previous | PlayPause | Next

  /** A click on one of the three buttons; a disabled button does nothing. */
  function PressButton(s: Playback.Session, b: Button, draw: nat): (r: Playback.Step)
    requires Playback.ValidDraw(s, draw)
    ensures !ButtonsEnabled(s) ==> r == Playback.Step(s, [])
    ensures ButtonsEnabled(s) && b == Previous ==> r == Playback.PlayPreviousTrack(s)
    ensures ButtonsEnabled(s) && b == PlayPause ==> r == Playback.TogglePlayPause(s)
    ensures ButtonsEnabled(s) && b == Next ==> r == Playback.PlayNextTrack(s, draw)
  {
    if !ButtonsEnabled(s) then Playback.Step(s, [])
    else match b
      case Previous => Playback.PlayPreviousTrack(s)
      case PlayPause => Playback.TogglePlayPause(s)
      case Next => Playback.PlayNextTrack(s, draw)
  }

  /** With no current track the buttons change nothing, in particular they cannot start playback. */
  lemma ButtonsInertWithoutTrack(b: Button, draw: nat)
    requires draw == 0
    ensures var s := Playback.Initial(true); PressButton(s, b, draw) == Playback.Step(s, [])
  {
  }

  // ---------------------------------------------------------------------------
  // Volume
  // ---------------------------------------------------------------------------

  /**
   * The volume control's state: the percentage on the bar, the mute flag, and
   * `level`, the element's own volume in `[0, 1]`.
   */
  datatype VolumeState = VolumeState(volume: real, muted: bool, level: real)

  /** The level the element should have: silent when muted, the bar's fraction otherwise. */
  function EffectiveLevel(v: VolumeState): real {
    if v.muted then 0.0 else v.volume / 100.0
  }

  /** The element's volume agrees with the control. */
  predicate Synced(v: VolumeState) {
    v.level == EffectiveLevel(v)
  }

  /** The effect that re-applies the level whenever the volume or the mute flag changes. */
  function ApplyLevel(v: VolumeState, hasAudio: bool): (r: VolumeState)
    ensures hasAudio ==> Synced(r)
    ensures r.volume == v.volume && r.muted == v.muted
  {
    if hasAudio then v.(level := EffectiveLevel(v)) else v
  }

  /** The control at mount: full volume, not muted, with the effect applied. */
  function InitialVolume(hasAudio: bool, elementLevel: real): (v: VolumeState)
    ensures v.volume == 100.0 && !v.muted
    ensures hasAudio ==> v.level == 1.0
  {
    ApplyLevel(VolumeState(100.0, false, elementLevel), hasAudio)
  }

  /**
   * `handleVolumeChange`: the clicked percentage becomes the volume, it is
   * written to the element directly, and the control is muted exactly when the
   * click was at (or left of) the bar's left edge.
   */
  function VolumeClick(v: VolumeState, barMounted: bool, hasAudio: bool, x: real, width: real): (r: VolumeState)
    requires width > 0.0
    ensures !barMounted ==> r == v
    ensures barMounted ==> r.volume == ClickPercentage(x, width) && (r.muted <==> r.volume == 0.0)
    ensures barMounted && hasAudio ==> Synced(r)
  {
    if !barMounted then v
    else
      var pct := ClickPercentage(x, width);
      var level := if hasAudio then pct / 100.0 else v.level;
      ApplyLevel(VolumeState(pct, pct == 0.0, level), hasAudio)
  }

  /** `toggleMute`: flips the mute flag and the element's level; the bar's volume is kept. */
  function ToggleMute(v: VolumeState, hasAudio: bool): (r: VolumeState)
    ensures !hasAudio ==> r == v
    ensures hasAudio ==> r.volume == v.volume && r.muted == !v.muted && Synced(r)
    ensures hasAudio && v.muted ==> r.level == v.volume / 100.0
    ensures hasAudio && !v.muted ==> r.level == 0.0
  {
    if !hasAudio then v
    else
      var direct := if v.muted then VolumeState(v.volume, false, v.volume / 100.0)
                    else VolumeState(v.volume, true, 0.0);
      ApplyLevel(direct, hasAudio)
  }

  /** Muting and unmuting returns the control, element level included, to where it was. */
  lemma ToggleMuteTwice(v: VolumeState)
    requires Synced(v)
    ensures ToggleMute(ToggleMute(v, true), true) == v
  {
  }

  /** Clicking the left edge of the volume bar mutes; clicking anywhere right of it unmutes. */
  lemma VolumeClickMutesAtZero(v: VolumeState, x: real, width: real)
    requires width > 0.0
    ensures x <= 0.0 ==> VolumeClick(v, true, true, x, width).muted
    ensures 0.0 < x ==> !VolumeClick(v, true, true, x, width).muted
    ensures 0.0 < x ==> VolumeClick(v, true, true, x, width).level > 0.0
  {
    if 0.0 < x < width {
      var p := ClickPercentage(x, width);
      assert p * width == x * 100.0;
    }
  }
}
