/**
 * The per-list keyboard hook: `j`/`k`/arrows move focus through the rows of
 * one container and stop at either end, Enter/Space select the focused row,
 * and `h`/`l` ask the owner to leave the list. Each optional callback is
 * reported as a dispatched call.
 */
module ListNavigation {
  import opened Wrappers
  import PanelNavigation

  datatype Direction = Left | Right

  /** A call of one of the hook's callbacks. */
  datatype Callback =
    | Navigate(newIndex: nat)      // `onNavigate`
    | Select(currentIndex: int)    // `onSelect`, -1 when no row has focus
    | Exit(direction: Direction)   // `onExit`

  /** Which of the optional callbacks the owner supplied. */
  datatype Handlers = Handlers(hasNavigate: bool, hasSelect: bool, hasExit: bool)

  /** A key press's outcome: the row focused afterwards (`None`: focus untouched), the callbacks called, and whether the default action was prevented. */
  datatype KeyOutcome = KeyOutcome(focus: Option<nat>, calls: seq<Callback>, prevented: bool)

  const NoEffect := KeyOutcome(None, [], false)

  /** The row the down keys move to: the next one, but never past the last. */
  function ClampDown(current: int, rows: nat): (i: nat)
    requires rows > 0 && -1 <= current < rows
    ensures i < rows
    ensures current + 1 < rows ==> i == current + 1
    ensures current + 1 == rows ==> i == current
  {
    if current + 1 < rows - 1 then current + 1 else rows - 1
  }

  /** The row the up keys move to: the previous one, but never before the first. */
  function ClampUp(current: int, rows: nat): (i: nat)
    requires rows > 0 && -1 <= current < rows
    ensures i < rows
    ensures current > 0 ==> i == current - 1
    ensures current <= 0 ==> i == 0
  {
    if current - 1 > 0 then current - 1 else 0
  }

  /** `callback?.(arg)`: the call is made only when the callback was supplied. */
  function Dispatch(present: bool, call: Callback): seq<Callback> {
    if present then [call] else []
  }

  /**
   * `handleKeyDown`: `containerMounted` is `containerRef.current != null`,
   * `rows` the number of rows matching the item selector and `current` the
   * focused row's index among them (-1 when focus is elsewhere). The source
   * indexes the row list on the move keys, so those need at least one row.
   */
  function HandleKeyDown(containerMounted: bool, rows: nat, current: int, key: string, h: Handlers): (r: KeyOutcome)
    requires -1 <= current < rows
    requires containerMounted && (PanelNavigation.IsDownKey(key) || PanelNavigation.IsUpKey(key)) ==> rows > 0
    ensures !containerMounted ==> r == NoEffect
    ensures r.focus.Some? ==> r.focus.value < rows
    ensures r.focus.Some? && h.hasNavigate ==> r.calls == [Navigate(r.focus.value)]
    ensures r.focus.None? ==> forall c :: c in r.calls ==> !c.Navigate?
  {
    if !containerMounted then NoEffect
    else if PanelNavigation.IsDownKey(key) then
      var i := ClampDown(current, rows);
      KeyOutcome(Some(i), Dispatch(h.hasNavigate, Navigate(i)), true)
    else if PanelNavigation.IsUpKey(key) then
      var i := ClampUp(current, rows);
      KeyOutcome(Some(i), Dispatch(h.hasNavigate, Navigate(i)), true)
    else if key == "Enter" || key == " " then
      KeyOutcome(None, Dispatch(h.hasSelect, Select(current)), true)
    else if key == "h" then
      KeyOutcome(None, Dispatch(h.hasExit, Exit(Left)), true)
    else if key == "l" then
      KeyOutcome(None, Dispatch(h.hasExit, Exit(Right)), true)
    else NoEffect
  }

  // ---------------------------------------------------------------------------
  // Properties
  // ---------------------------------------------------------------------------

  /** Down never leaves the list: from the last row it stays, from no row it lands on the first. */
  lemma DownStopsAtLastRow(rows: nat, current: int, key: string, h: Handlers)
    requires rows > 0 && -1 <= current < rows && PanelNavigation.IsDownKey(key)
    ensures var r := HandleKeyDown(true, rows, current, key, h);
      && r.focus == Some(if current + 1 < rows then current + 1 else rows - 1)
      && (current == -1 ==> r.focus == Some(0))
      && r.prevented
  {
  }

  /** Up never leaves the list: from the first row, or from no row, it lands on the first. */
  lemma UpStopsAtFirstRow(rows: nat, current: int, key: string, h: Handlers)
    requires rows > 0 && -1 <= current < rows && PanelNavigation.IsUpKey(key)
    ensures var r := HandleKeyDown(true, rows, current, key, h);
      r.focus == Some(if current > 0 then current - 1 else 0) && r.prevented
  {
  }

  /** Enter and Space select the focused row's index and leave focus where it is. */
  lemma SelectKeepsFocus(rows: nat, current: int, key: string)
    requires -1 <= current < rows && (key == "Enter" || key == " ")
    ensures HandleKeyDown(true, rows, current, key, Handlers(true, true, true))
            == KeyOutcome(None, [Select(current)], true)
  {
  }

  /** `h` asks to exit left and `l` to exit right, with no focus change. */
  lemma ExitKeys(rows: nat, current: int)
    requires -1 <= current < rows
    ensures HandleKeyDown(true, rows, current, "h", Handlers(true, true, true)) == KeyOutcome(None, [Exit(Left)], true)
    ensures HandleKeyDown(true, rows, current, "l", Handlers(true, true, true)) == KeyOutcome(None, [Exit(Right)], true)
  {
  }

  /** Any other key has no effect at all, not even preventing the default action. */
  lemma OtherKeysHaveNoEffect(mounted: bool, rows: nat, current: int, key: string, h: Handlers)
    requires -1 <= current < rows
    requires !PanelNavigation.IsDownKey(key) && !PanelNavigation.IsUpKey(key)
    requires key != "Enter" && key != " " && key != "h" && key != "l"
    ensures HandleKeyDown(mounted, rows, current, key, h) == NoEffect
  {
  }

  /**
   * The clamping hook and the wrap-around provider navigator compared: they
   * agree away from the ends of the list; at the ends the clamp stays put
   * where the wrap jumps to the other end; and with no row focused, up goes
   * to the first row under the clamp but to the second-to-last under the wrap.
   */
  lemma ClampVersusWrap(current: int, rows: nat)
    requires rows > 0 && -1 <= current < rows
    ensures current + 1 < rows ==> ClampDown(current, rows) == PanelNavigation.WrapDown(current, rows)
    ensures current == rows - 1 && rows > 1 ==>
      ClampDown(current, rows) == rows - 1 && PanelNavigation.WrapDown(current, rows) == 0
    ensures current > 0 ==> ClampUp(current, rows) == PanelNavigation.WrapUp(current, rows)
    ensures current == 0 && rows > 1 ==>
      ClampUp(current, rows) == 0 && PanelNavigation.WrapUp(current, rows) == rows - 1
    ensures current == -1 && rows > 2 ==>
      ClampUp(current, rows) == 0 && PanelNavigation.WrapUp(current, rows) == rows - 2
    ensures current == -1 && rows <= 2 ==> ClampUp(current, rows) == PanelNavigation.WrapUp(current, rows) == 0
  {
    if current >= 0 {
      PanelNavigation.WrapStep(current, rows);
    } else {
      PanelNavigation.ModOfRange(0, rows);
      if rows >= 2 {
        PanelNavigation.ModOfRange(rows - 2, rows);
      }
    }
  }
}
