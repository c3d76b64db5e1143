/** The touchscreen state machine of the controller (`handle_touch`): the three
    on-screen buttons, the hit test, the wake latch, the holiday long press and
    the actions taken on release. The globals `touch_lock`, `held_button`,
    `touch_start_time` and `long_press_triggered` form a `TouchState`; one poll
    of the touch panel is one `Step`. */
module Touch {
  import opened Wrappers
  import Config

  /** A button rectangle `(x, y, w, h)`. */
  datatype Rect = Rect(x: int, y: int, w: int, h: int)

  const SYNC_BUTTON_RECT := Rect(Config.DISPLAY_WIDTH - 85, 5, 80, 40)
  const HOLIDAY_BUTTON_RECT := Rect(5, 5, 80, 40)
  const SETUP_BUTTON_RECT := Rect(Config.DISPLAY_WIDTH / 2 - 75, 100, 150, 40)

  /** A long press must last strictly longer than this many milliseconds. */
  const LONG_PRESS_MS := 2000

  /** `held_button`: None, 'setup', 'sync' or 'holiday'. */
  datatype Button = NoButton | SetupButton | SyncButton | HolidayButton

  datatype TouchState = TouchState(lock: bool, held: Button, start: int, longPress: bool)

  /** The state at boot and after every release. */
  const IDLE := TouchState(false, NoButton, 0, false)

  /** A touch position `(x, y)` in screen pixels. */
  datatype Point = Point(x: int, y: int)

  /** What one poll asks the rest of the controller to do. `wake` is a direct
      `wake_display`; `refresh` is a redraw with the last status line. */
  datatype Effects = Effects(wake: bool, toggleHoliday: bool, sync: bool, setup: bool, refresh: bool)

  const NO_EFFECTS := Effects(false, false, false, false, false)

  /** The inclusive hit test `x0 <= x <= x0 + w and y0 <= y <= y0 + h`. */
  predicate Inside(r: Rect, p: Point) {
    r.x <= p.x <= r.x + r.w && r.y <= p.y <= r.y + r.h
  }

  /** The first-contact hit test: setup (only offered when Wi-Fi failed), then
      sync, then holiday. */
  function HitTest(p: Point, wifiFailed: bool): (b: Button)
    ensures b == SetupButton ==> wifiFailed && Inside(SETUP_BUTTON_RECT, p)
    ensures b == SyncButton ==> Inside(SYNC_BUTTON_RECT, p)
    ensures b == HolidayButton ==> Inside(HOLIDAY_BUTTON_RECT, p)
    ensures b == NoButton ==> !Inside(SYNC_BUTTON_RECT, p) && !Inside(HOLIDAY_BUTTON_RECT, p)
  {
    if wifiFailed && Inside(SETUP_BUTTON_RECT, p) then SetupButton
    else if Inside(SYNC_BUTTON_RECT, p) then SyncButton
    else if Inside(HOLIDAY_BUTTON_RECT, p) then HolidayButton
    else NoButton
  }

  /** The three buttons do not overlap. */
  lemma RectsDisjoint(p: Point)
    ensures !(Inside(SYNC_BUTTON_RECT, p) && Inside(HOLIDAY_BUTTON_RECT, p))
    ensures !(Inside(SYNC_BUTTON_RECT, p) && Inside(SETUP_BUTTON_RECT, p))
    ensures !(Inside(HOLIDAY_BUTTON_RECT, p) && Inside(SETUP_BUTTON_RECT, p))
  {
  }

  /** Because the buttons are disjoint, the priority order of the hit test
      never matters: a point selects exactly the button whose rectangle holds
      it, the setup button only when Wi-Fi failed. */
  lemma HitTestByRegion(p: Point, wifiFailed: bool)
    ensures HitTest(p, wifiFailed) == SetupButton <==> wifiFailed && Inside(SETUP_BUTTON_RECT, p)
    ensures HitTest(p, wifiFailed) == SyncButton <==> Inside(SYNC_BUTTON_RECT, p)
    ensures HitTest(p, wifiFailed) == HolidayButton <==> Inside(HOLIDAY_BUTTON_RECT, p)
  {
    RectsDisjoint(p);
  }

  /** One poll while the panel reports contact at `p`, the display being on. */
  function Press(st: TouchState, p: Point, wifiFailed: bool, nowMs: int): (TouchState, Effects) {
    var hit := if st.lock then NoButton else HitTest(p, wifiFailed);
    var st1 :=
      if st.lock then st
      else if hit == SetupButton then st.(lock := true, held := SetupButton)
      else if hit == NoButton then st.(lock := true)
      else st.(lock := true, held := hit, start := nowMs);
    if st1.held == HolidayButton && !st1.longPress && nowMs - st1.start > LONG_PRESS_MS then
      (st1.(longPress := true), NO_EFFECTS.(toggleHoliday := true, refresh := true))
    else (st1, NO_EFFECTS)
  }

  /** One poll without contact. Releasing the setup button enters the setup
      portal, which never returns, so nothing after it runs. */
  function Release(st: TouchState): (TouchState, Effects) {
    if st.held == SetupButton then (st, NO_EFFECTS.(setup := true))
    else
      var sync := st.held == SyncButton && !st.longPress;
      (IDLE, NO_EFFECTS.(sync := sync, refresh := st.lock))
  }

  /** One call of `handle_touch` (with a touch controller present). */
  function Step(st: TouchState, pos: Option<Point>, displayOn: bool, wifiFailed: bool, nowMs: int): (TouchState, Effects) {
    if pos.None? then Release(st)
    else if !displayOn then (st.(lock := true), NO_EFFECTS.(wake := true))
    else Press(st, pos.value, wifiFailed, nowMs)
  }

  /** What holds of the touch globals between polls: unlocked means idle, and
      only a holiday hold can have fired a long press. */
  predicate Inv(st: TouchState) {
    (!st.lock ==> st == IDLE) && (st.longPress ==> st.held == HolidayButton)
  }

  lemma StepKeepsInv(st: TouchState, pos: Option<Point>, displayOn: bool, wifiFailed: bool, nowMs: int)
    requires Inv(st)
    ensures Inv(Step(st, pos, displayOn, wifiFailed, nowMs).0)
  {
  }

  /** A touch while the screen is dark only wakes it and latches the lock; no
      button is selected. */
  lemma WakeOnly(st: TouchState, p: Point, wifiFailed: bool, nowMs: int)
    requires Inv(st) && !st.lock
    ensures var (st', eff) := Step(st, Some(p), false, wifiFailed, nowMs);
            st'.lock && st'.held == NoButton && eff == NO_EFFECTS.(wake := true)
  {
  }

  /** Debounce: once the lock is set, further contact never re-runs the hit
      test, so the held button and its start time stay as they were. */
  lemma LockedPressKeepsButton(st: TouchState, p: Point, displayOn: bool, wifiFailed: bool, nowMs: int)
    requires st.lock
    ensures var st' := Step(st, Some(p), displayOn, wifiFailed, nowMs).0;
            st'.lock && st'.held == st.held && st'.start == st.start
  {
  }

  /** First contact with the screen on selects the button under the finger and
      starts the hold timer for sync and holiday. */
  lemma FirstContact(st: TouchState, p: Point, wifiFailed: bool, nowMs: int)
    requires Inv(st) && !st.lock
    ensures var st' := Step(st, Some(p), true, wifiFailed, nowMs).0;
            st'.lock && st'.held == HitTest(p, wifiFailed) &&
            (st'.held in {SyncButton, HolidayButton} ==> st'.start == nowMs)
  {
  }

  /** Releasing resets all four globals (except when it enters the setup
      portal); sync acts only on release and only without a long press, and a
      release never toggles holiday mode. */
  lemma ReleaseResets(st: TouchState, displayOn: bool, wifiFailed: bool, nowMs: int)
    ensures var (st', eff) := Step(st, None, displayOn, wifiFailed, nowMs);
            !eff.toggleHoliday &&
            (eff.setup <==> st.held == SetupButton) &&
            (st.held != SetupButton ==> st' == IDLE) &&
            (eff.sync <==> st.held == SyncButton && !st.longPress)
  {
  }

  /** The number of holiday toggles over successive polls with the finger
      down, the display on, at the tick counts `times`. */
  function HoldToggles(st: TouchState, p: Point, wifiFailed: bool, times: seq<int>): nat
    decreases |times|
  {
    if times == [] then 0
    else
      var (st', eff) := Step(st, Some(p), true, wifiFailed, times[0]);
      (if eff.toggleHoliday then 1 else 0) + HoldToggles(st', p, wifiFailed, times[1..])
  }

  /** A held holiday button toggles holiday mode exactly once if some poll
      comes more than 2000 ms after the press, and never otherwise; once the
      long press fired, nothing more happens until release. */
  lemma {:induction false} LongPressOnce(st: TouchState, p: Point, wifiFailed: bool, times: seq<int>)
    requires st.lock && st.held == HolidayButton
    ensures HoldToggles(st, p, wifiFailed, times) ==
            if st.longPress then 0
            else if exists i :: 0 <= i < |times| && times[i] - st.start > LONG_PRESS_MS then 1
            else 0
    decreases |times|
  {
    if times != [] {
      var (st', eff) := Step(st, Some(p), true, wifiFailed, times[0]);
      LongPressOnce(st', p, wifiFailed, times[1..]);
      if !st.longPress && times[0] - st.start > LONG_PRESS_MS {
        LongPressDone(st', p, wifiFailed, times[1..]);
      } else if !st.longPress {
        if exists i :: 0 <= i < |times| && times[i] - st.start > LONG_PRESS_MS {
          var i :| 0 <= i < |times| && times[i] - st.start > LONG_PRESS_MS;
          assert times[1..][i - 1] == times[i];
        }
        if exists i :: 0 <= i < |times[1..]| && times[1..][i] - st.start > LONG_PRESS_MS {
          var i :| 0 <= i < |times[1..]| && times[1..][i] - st.start > LONG_PRESS_MS;
          assert times[i + 1] == times[1..][i];
        }
      }
    }
  }

  lemma {:induction false} LongPressDone(st: TouchState, p: Point, wifiFailed: bool, times: seq<int>)
    requires st.lock && st.held == HolidayButton && st.longPress
    ensures HoldToggles(st, p, wifiFailed, times) == 0
    decreases |times|
  {
    if times != [] {
      LongPressDone(st, p, wifiFailed, times[1..]);
    }
  }
}
