/**
 * The two-panel keyboard navigator of the playback provider: which panel
 * (library sidebar or track list) is active, which panels have registered
 * their row container, and how `j`/`k`/arrow keys move focus with wrap-around
 * and `h`/`l` switch panels.
 */
module PanelNavigation {
  import opened Wrappers

  datatype Panel = Sidebar | Tracklist

  /** The navigator's own state: the active panel and the registered containers. */
  datatype Navigator = Navigator(activePanel: Panel, registered: set<Panel>)

  /** The navigator as the provider mounts it: sidebar active, nothing registered. */
  function Initial(): (n: Navigator)
    ensures n.activePanel == Sidebar && n.registered == {}
  {
    Navigator(Sidebar, {})
  }

  /** `registerPanelRef`: remembers the panel's container; never forgets one. */
  function Register(n: Navigator, p: Panel): (r: Navigator)
    ensures r.registered == n.registered + {p}
    ensures r.activePanel == n.activePanel
  {
    n.(registered := n.registered + {p})
  }

  /** `setActivePanel`. */
  function SetActive(n: Navigator, p: Panel): (r: Navigator)
    ensures r.activePanel == p && r.registered == n.registered
  {
    n.(activePanel := p)
  }

  /** Where the document's focus is: on a focusable row of a panel, or elsewhere. */
  datatype Focus = Elsewhere | Row(panel: Panel, index: nat)

  /**
   * The document at the moment of a key event: for each panel, `None` when its
   * container element is not mounted, otherwise the number of focusable rows
   * in it; and the focused element.
   */
  datatype View = View(sidebarRows: Option<nat>, tracklistRows: Option<nat>, focused: Focus) {

    function Rows(p: Panel): Option<nat> {
      match p
      case Sidebar => sidebarRows
      case Tracklist => tracklistRows
    }

    /** A focused row is one of the rows its panel currently shows. */
    predicate Valid() {
      focused.Row? ==> Rows(focused.panel).Some? && focused.index < Rows(focused.panel).value
    }
  }

  /** The panel's container can be queried: it registered and is mounted. */
  predicate Available(n: Navigator, v: View, p: Panel) {
    p in n.registered && v.Rows(p).Some?
  }

  /** `items.indexOf(document.activeElement)` over the rows of `p`: -1 when focus is elsewhere. */
  function CurrentIndex(v: View, p: Panel): (i: int)
    requires v.Valid() && v.Rows(p).Some?
    ensures -1 <= i < v.Rows(p).value
    ensures i >= 0 <==> v.focused.Row? && v.focused.panel == p
    ensures i >= 0 ==> v.focused.index == i
  {
    if v.focused.Row? && v.focused.panel == p then v.focused.index else -1
  }

  predicate IsDownKey(key: string) { key == "ArrowDown" || key == "j" }

  predicate IsUpKey(key: string) { key == "ArrowUp" || key == "k" }

  /** What a key press does: the navigator afterwards, the focus afterwards, and whether the default action was prevented. */
  datatype NavStep = NavStep(nav: Navigator, focus: Focus, prevented: bool)

  /** Focus on the first row of `p` when it has one, as `querySelector(...)?.focus()` does. */
  function FocusFirstRow(n: Navigator, v: View, p: Panel): (f: Focus)
    ensures f == v.focused || f == Row(p, 0)
  {
    if Available(n, v, p) && v.Rows(p).value > 0 then Row(p, 0) else v.focused
  }

  /** The row the down keys move to: the next one, wrapping from the last to the first. */
  function WrapDown(current: int, rows: nat): (i: nat)
    requires rows > 0 && -1 <= current < rows
    ensures i < rows
  {
    (current + 1) % rows
  }

  /** The row the up keys move to: the previous one, wrapping from the first to the last. */
  function WrapUp(current: int, rows: nat): (i: nat)
    requires rows > 0 && -1 <= current < rows
    ensures i < rows
  {
    (current - 1 + rows) % rows
  }

  /**
   * `handleKeyNavigation(e, panel)`: a key pressed inside `panel`'s container.
   * The source divides by the row count, so an up or down key on an
   * available panel with no rows is excluded.
   */
  function HandleKey(n: Navigator, v: View, key: string, panel: Panel): (r: NavStep)
    requires v.Valid()
    requires Available(n, v, panel) && (IsDownKey(key) || IsUpKey(key)) ==> v.Rows(panel).value > 0
    ensures !Available(n, v, panel) ==> r == NavStep(n, v.focused, false)
    ensures r.nav.registered == n.registered
    ensures r.nav.activePanel != n.activePanel ==>
              (key == "h" && panel == Tracklist && r.nav.activePanel == Sidebar)
              || (key == "l" && panel == Sidebar && r.nav.activePanel == Tracklist)
  {
    if !Available(n, v, panel) then NavStep(n, v.focused, false)
    else
      var rows := v.Rows(panel).value;
      var current := CurrentIndex(v, panel);
      if IsDownKey(key) then NavStep(n, Row(panel, WrapDown(current, rows)), true)
      else if IsUpKey(key) then NavStep(n, Row(panel, WrapUp(current, rows)), true)
      else if key == "h" then
        if panel == Tracklist then
          NavStep(SetActive(n, Sidebar), FocusFirstRow(n, v, Sidebar), true)
        else NavStep(n, v.focused, false)
      else if key == "l" then
        if panel == Sidebar then
          NavStep(SetActive(n, Tracklist), FocusFirstRow(n, v, Tracklist), true)
        else NavStep(n, v.focused, false)
      else NavStep(n, v.focused, false)
  }

  // ---------------------------------------------------------------------------
  // Properties
  // ---------------------------------------------------------------------------

  /** Down moves to the following row, wraps from the last row to the first, and starts at the first row when no row of the panel is focused. */
  lemma DownKeyMovesForward(n: Navigator, v: View, key: string, panel: Panel)
    requires v.Valid() && Available(n, v, panel) && v.Rows(panel).value > 0 && IsDownKey(key)
    ensures var r := HandleKey(n, v, key, panel);
      && r.nav == n && r.prevented
      && r.focus.Row? && r.focus.panel == panel
      && (v.focused.Row? && v.focused.panel == panel && v.focused.index + 1 < v.Rows(panel).value ==> r.focus.index == v.focused.index + 1)
      && (v.focused.Row? && v.focused.panel == panel && v.focused.index + 1 == v.Rows(panel).value ==> r.focus.index == 0)
      && (!(v.focused.Row? && v.focused.panel == panel) ==> r.focus.index == 0)
  {
    var rows := v.Rows(panel).value;
    var current := CurrentIndex(v, panel);
    if current >= 0 {
      WrapStep(current, rows);
    } else {
      ModOfRange(0, rows);
    }
  }

  /**
   * Up moves to the preceding row and wraps from the first row to the last.
   * With no row of the panel focused it lands on the second-to-last row
   * (index -1 minus one, modulo the row count).
   */
  lemma UpKeyMovesBackward(n: Navigator, v: View, key: string, panel: Panel)
    requires v.Valid() && Available(n, v, panel) && v.Rows(panel).value > 0 && IsUpKey(key)
    ensures var r := HandleKey(n, v, key, panel);
      var rows := v.Rows(panel).value;
      && r.nav == n && r.prevented
      && r.focus.Row? && r.focus.panel == panel
      && (v.focused.Row? && v.focused.panel == panel && v.focused.index > 0 ==> r.focus.index == v.focused.index - 1)
      && (v.focused.Row? && v.focused.panel == panel && v.focused.index == 0 ==> r.focus.index == rows - 1)
      && (!(v.focused.Row? && v.focused.panel == panel) ==> r.focus.index == if rows >= 2 then rows - 2 else 0)
  {
    var rows := v.Rows(panel).value;
    var current := CurrentIndex(v, panel);
    if current >= 0 {
      WrapStep(current, rows);
    } else if rows >= 2 {
      ModOfRange(rows - 2, rows);
    }
  }

  /** Up undoes down and down undoes up on every focused row. */
  lemma WrapUpDownInverse(i: nat, rows: nat)
    requires i < rows
    ensures WrapUp(WrapDown(i, rows), rows) == i
    ensures WrapDown(WrapUp(i, rows), rows) == i
  {
    WrapStep(i, rows);
    if i + 1 < rows {
      WrapStep(i + 1, rows);
    } else {
      WrapStep(0, rows);
    }
    if i > 0 {
      WrapStep(i - 1, rows);
    } else {
      WrapStep(rows - 1, rows);
    }
  }

  /** The wrapped moves from a row, without the modulus. */
  lemma WrapStep(i: nat, rows: nat)
    requires i < rows
    ensures WrapDown(i, rows) == if i + 1 < rows then i + 1 else 0
    ensures WrapUp(i, rows) == if i > 0 then i - 1 else rows - 1
  {
    ModOfRange(i + 1, rows);
    ModOfRange(i - 1 + rows, rows);
  }

  /** `x % n` for `x` in `[0, 2n)`. */
  lemma ModOfRange(x: int, n: int)
    requires n > 0 && 0 <= x < 2 * n
    ensures x % n == if x < n then x else x - n
  {
    if x < n {
      assert x == n * 0 + x;
    } else {
      assert x == n * 1 + (x - n);
    }
  }

  /** `h` in the track list activates the sidebar and focuses its first row; in the sidebar it does nothing. */
  lemma HKeySwitchesToSidebar(n: Navigator, v: View, panel: Panel)
    requires v.Valid() && Available(n, v, panel)
    ensures var r := HandleKey(n, v, "h", panel);
      && (panel == Tracklist ==>
            && r.nav == SetActive(n, Sidebar) && r.prevented
            && (Available(n, v, Sidebar) && v.Rows(Sidebar).value > 0 ==> r.focus == Row(Sidebar, 0))
            && (!(Available(n, v, Sidebar) && v.Rows(Sidebar).value > 0) ==> r.focus == v.focused))
      && (panel == Sidebar ==> r == NavStep(n, v.focused, false))
  {
  }

  /** `l` in the sidebar activates the track list and focuses its first row; in the track list it does nothing. */
  lemma LKeySwitchesToTracklist(n: Navigator, v: View, panel: Panel)
    requires v.Valid() && Available(n, v, panel)
    ensures var r := HandleKey(n, v, "l", panel);
      && (panel == Sidebar ==>
            && r.nav == SetActive(n, Tracklist) && r.prevented
            && (Available(n, v, Tracklist) && v.Rows(Tracklist).value > 0 ==> r.focus == Row(Tracklist, 0))
            && (!(Available(n, v, Tracklist) && v.Rows(Tracklist).value > 0) ==> r.focus == v.focused))
      && (panel == Tracklist ==> r == NavStep(n, v.focused, false))
  {
  }

  /** Any key other than the navigation keys changes nothing. */
  lemma OtherKeysAreIgnored(n: Navigator, v: View, key: string, panel: Panel)
    requires v.Valid()
    requires !IsDownKey(key) && !IsUpKey(key) && key != "h" && key != "l"
    ensures HandleKey(n, v, key, panel) == NavStep(n, v.focused, false)
  {
  }

  /** Five rows, focus on the third: `j` focuses the fourth, and `k` twice reaches the first. */
  lemma FiveRowExample(n: Navigator)
    requires Tracklist in n.registered
    ensures var v := View(None, Some(5), Row(Tracklist, 2));
      HandleKey(n, v, "j", Tracklist).focus == Row(Tracklist, 3)
    ensures var v1 := View(None, Some(5), Row(Tracklist, 2));
      var f1 := HandleKey(n, v1, "k", Tracklist).focus;
      var v2 := View(None, Some(5), f1);
      v2.Valid() && HandleKey(n, v2, "k", Tracklist).focus == Row(Tracklist, 0)
  {
  }
}
