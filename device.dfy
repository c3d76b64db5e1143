/** The bell controller's device state (the module globals of main.py) and the
    operations of its main loop: persistence of holiday mode, active schedule
    name and schedule cache; the manifest-and-schedule fetch; relay
    activation; the minute-edge bell trigger; the touch handler; the screen
    timeout and burn-in pixel shift; the uptime readout.

    Time is the UTC epoch second `t` the caller passes in (`utime.time()`),
    the millisecond tick count `nowMs` where the source reads
    `utime.ticks_ms()`. Network results, NTP outcomes and file contents are
    parameters or fields. */
module BellController {
  import opened Wrappers
  import opened Text
  import Clock
  import Config
  import opened Schedules
  import opened Touch

  // ---------------------------------------------------------------------------
  // Manifest documents

  /** A downloaded manifest as far as the fetch looks at it: the `base_url` and
      the `schedules` object (name to file name, in document order), each
      possibly absent. `None` for the whole document is a failed download. */
  datatype ManifestDoc = ManifestDoc(baseUrl: Option<string>, schedules: Option<seq<(string, string)>>)

  /** A manifest that passed validation. */
  datatype Manifest = Manifest(baseUrl: string, schedules: seq<(string, string)>)

  /** `name in schedules`. */
  predicate HasKey(entries: seq<(string, string)>, name: string) {
    exists i :: 0 <= i < |entries| && entries[i].0 == name
  }

  /** `schedules[name]`: the file of the last entry with that name, as a
      parsed JSON object keeps the last of repeated keys. */
  function Lookup(entries: seq<(string, string)>, name: string): (file: string)
    requires HasKey(entries, name)
    ensures exists i :: 0 <= i < |entries| && entries[i] == (name, file) &&
                        forall j :: i < j < |entries| ==> entries[j].0 != name
  {
    var n := |entries| - 1;
    if entries[n].0 == name then entries[n].1
    else
      var front := entries[..n];
      assert HasKey(front, name) by {
        var i :| 0 <= i < |entries| && entries[i].0 == name;
        assert i < n && front[i] == entries[i];
      }
      var file := Lookup(front, name);
      var i :| 0 <= i < |front| && front[i] == (name, file) &&
               forall j :: i < j < |front| ==> front[j].0 != name;
      assert entries[i] == (name, file);
      assert forall j :: i < j < |entries| ==> entries[j].0 != name by {
        forall j | i < j < |entries| ensures entries[j].0 != name {
          if j < n {
            assert entries[j] == front[j];
          }
        }
      }
      file
  }

  /** What the fetch does with the manifest it downloaded, before it downloads
      the schedule. */
  datatype FetchPlan =
    | Invalid                                   // rejected; nothing is committed
    | NoSchedules(m: Manifest)                  // committed, then `next(iter({}))` raises
    | Download(m: Manifest, name: string, url: string)

  /** `next(iter(schedules))`: which entry's key the parsed `schedules`
      object yields first. A MicroPython `dict` iterates in hash-table order,
      not document order, so the choice is a parameter. The entry taken is
      the choice's value modulo the number of entries: every choice names an
      entry of a non-empty object, and every entry is named by some choice. */
  type KeyChoice = seq<(string, string)> -> nat

  /** The manifest checks, the choice of active schedule and the schedule URL
      of `fetch_manifest_and_schedule`, for the active name `current`, the
      object's first key being the one `first` picks. */
  function PlanFetch(doc: Option<ManifestDoc>, current: string, first: KeyChoice): FetchPlan {
    if doc.None? || doc.value.baseUrl.None? || doc.value.schedules.None? then Invalid
    else
      var m := Manifest(doc.value.baseUrl.value, doc.value.schedules.value);
      if HasKey(m.schedules, current) then Download(m, current, m.baseUrl + Lookup(m.schedules, current))
      else if m.schedules == [] then NoSchedules(m)
      else
        var name := m.schedules[first(m.schedules) % |m.schedules|].0;
        assert HasKey(m.schedules, name) by { assert m.schedules[first(m.schedules) % |m.schedules|].0 == name; }
        Download(m, name, m.baseUrl + Lookup(m.schedules, name))
  }

  /** Validate-then-commit: a missing or falsy manifest, or one without
      `schedules` or `base_url`, is rejected; an accepted one is committed as
      downloaded; an empty `schedules` object makes `next(iter(...))` raise;
      otherwise the active name is kept when listed and replaced by the
      object's first key when not, and the schedule URL is `base_url`
      followed by that name's file. */
  lemma PlanFetchSpec(doc: Option<ManifestDoc>, current: string, first: KeyChoice)
    ensures var p := PlanFetch(doc, current, first);
            && (p == Invalid <==> doc.None? || doc.value.baseUrl.None? || doc.value.schedules.None?)
            && (p != Invalid ==> p.m == Manifest(doc.value.baseUrl.value, doc.value.schedules.value))
            && (p.NoSchedules? <==> p != Invalid && doc.value.schedules.value == [])
            && (p.Download? ==> HasKey(p.m.schedules, p.name))
            && (p.Download? && HasKey(p.m.schedules, current) ==> p.name == current)
            && (p.Download? && !HasKey(p.m.schedules, current) ==> p.name == p.m.schedules[first(p.m.schedules) % |p.m.schedules|].0)
            && (p.Download? ==>
                  exists i :: 0 <= i < |p.m.schedules| &&
                    p.m.schedules[i].0 == p.name && p.url == p.m.baseUrl + p.m.schedules[i].1 &&
                    forall j :: i < j < |p.m.schedules| ==> p.m.schedules[j].0 != p.name)
  {
    var p := PlanFetch(doc, current, first);
    if p.Download? {
      var file := Lookup(p.m.schedules, p.name);
      var i :| 0 <= i < |p.m.schedules| && p.m.schedules[i] == (p.name, file) &&
               forall j :: i < j < |p.m.schedules| ==> p.m.schedules[j].0 != p.name;
      assert p.m.schedules[i].0 == p.name && p.url == p.m.baseUrl + p.m.schedules[i].1;
    }
  }

  /** The key order does not narrow the fallback: for an unlisted active
      name, each entry of an accepted manifest is the one taken under some
      key order. */
  lemma EveryEntryChoosable(doc: Option<ManifestDoc>, current: string, i: nat)
    requires doc.Some? && doc.value.baseUrl.Some? && doc.value.schedules.Some?
    requires !HasKey(doc.value.schedules.value, current) && i < |doc.value.schedules.value|
    ensures var p := PlanFetch(doc, current, (s: seq<(string, string)>) => i);
            p.Download? && p.name == doc.value.schedules.value[i].0
  {
  }

  /** How a fetch ended: True, one of the two False returns, or the exception
      raised by an empty `schedules` object. */
  datatype FetchOutcome = Fetched | ManifestInvalid | DownloadFailed | Raised

  // ---------------------------------------------------------------------------
  // Relays

  datatype RelayState = On | Off

  /** One energising of a relay output pin, for `seconds`. */
  datatype Actuation = Actuation(channel: int, seconds: int)

  /** The part of the device state that fetching and ringing change, taken
      as one value so that a later state can be compared with it. */
  datatype Snapshot = Snapshot(manifest: Option<Manifest>, activeName: string, activeFile: Option<string>,
                               schedule: Schedule, cacheFile: Option<Schedule>, nextBell: NextBell,
                               actuations: seq<Actuation>, relayStatus: map<int, RelayState>)

  /** The manifest, active name and file, schedule and cache in `after`,
      once `fetch_manifest_and_schedule` has run from `before` with active
      name `name` and name file `file` and ended with `outcome`, as
      `PlanFetch` and the schedule server decide. */
  predicate Adopted(before: Snapshot, after: Snapshot, doc: Option<ManifestDoc>, download: string -> Option<Schedule>,
                    name: string, file: Option<string>, first: KeyChoice, outcome: FetchOutcome)
  {
    var p := PlanFetch(doc, name, first);
    && (outcome == ManifestInvalid <==> p == Invalid)
    && (outcome == Raised <==> p.NoSchedules?)
    && (outcome == Fetched <==> p.Download? && download(p.url).Some? && |download(p.url).value| > 0)
    && after.manifest == (if p == Invalid then before.manifest else Some(p.m))
    && after.activeName == (if p.Download? then p.name else name)
    && after.activeFile == (if after.activeName != name then Some(after.activeName) else file)
    && (outcome == Fetched ==> after.schedule == download(p.url).value && after.cacheFile == Some(after.schedule))
    && (outcome != Fetched ==> after.schedule == before.schedule && after.cacheFile == before.cacheFile)
  }

  /** No fetch ran from `before` to `after`: manifest, active name and file,
      schedule and cache are as they were. */
  predicate Kept(before: Snapshot, after: Snapshot) {
    after.manifest == before.manifest && after.activeName == before.activeName &&
    after.activeFile == before.activeFile && after.schedule == before.schedule && after.cacheFile == before.cacheFile
  }

  /** `Kept`, and the next bell too. */
  predicate Untouched(before: Snapshot, after: Snapshot) {
    Kept(before, after) && after.nextBell == before.nextBell
  }

  /** `relay1 if relay_number == 1 else relay2`: any number but 1 drives the
      second relay. */
  function Channel(relay: int): (c: int)
    ensures c == 1 <==> relay == 1
    ensures c == 1 || c == 2
  {
    if relay == 1 then 1 else 2
  }

  function ActuationsOf(fs: seq<Firing>): (acts: seq<Actuation>)
  {
    if fs == [] then [] else [Actuation(Channel(fs[0].relay), fs[0].seconds)] + ActuationsOf(fs[1..])
  }

  /** Each firing energises the pin of its relay's channel for its duration,
      one actuation per firing, in order. */
  lemma {:induction false} ActuationsAt(fs: seq<Firing>)
    ensures |ActuationsOf(fs)| == |fs|
    ensures forall i :: 0 <= i < |fs| ==> ActuationsOf(fs)[i] == Actuation(Channel(fs[i].relay), fs[i].seconds)
  {
    if fs != [] {
      ActuationsAt(fs[1..]);
    }
  }

  lemma {:induction false} ActuationsAppend(a: seq<Firing>, b: seq<Firing>)
    ensures ActuationsOf(a + b) == ActuationsOf(a) + ActuationsOf(b)
  {
    if a != [] {
      assert (a + b)[1..] == a[1..] + b;
      ActuationsAppend(a[1..], b);
    } else {
      assert a + b == b;
    }
  }

  /** The seconds the relays are held for the firings `fs`, one after the
      other: how far the clock has moved when the last of them ends. */
  function Held(fs: seq<Firing>): (h: int)
    ensures (forall i :: 0 <= i < |fs| ==> fs[i].seconds >= 0) ==> h >= 0
  {
    if fs == [] then 0 else fs[0].seconds + Held(fs[1..])
  }

  /** Holding for `a` and then for `b` takes the two times added. */
  lemma {:induction false} HeldAppend(a: seq<Firing>, b: seq<Firing>)
    ensures Held(a + b) == Held(a) + Held(b)
  {
    if a != [] {
      assert (a + b)[1..] == a[1..] + b;
      HeldAppend(a[1..], b);
    } else {
      assert a + b == b;
    }
  }

  /** The relay status table after the firings `fs`: every relay named is
      back to OFF. */
  function MarkOff(status: map<int, RelayState>, fs: seq<Firing>): (r: map<int, RelayState>)
    decreases |fs|
  {
    if fs == [] then status else MarkOff(status[fs[0].relay := Off], fs[1..])
  }

  /** After the firings `fs` every relay they name reads OFF, the table has
      gained exactly those relays as keys, and every other entry is as before. */
  lemma {:induction false} MarkOffSpec(status: map<int, RelayState>, fs: seq<Firing>)
    ensures MarkOff(status, fs).Keys == status.Keys + set f | f in fs :: f.relay
    ensures forall f :: f in fs ==> MarkOff(status, fs)[f.relay] == Off
    ensures forall k :: k in status && (forall f :: f in fs ==> f.relay != k) ==> MarkOff(status, fs)[k] == status[k]
    decreases |fs|
  {
    if fs != [] {
      var rest := MarkOff(status[fs[0].relay := Off], fs[1..]);
      MarkOffSpec(status[fs[0].relay := Off], fs[1..]);
      assert fs == [fs[0]] + fs[1..];
      forall f | f in fs ensures rest[f.relay] == Off {
        if f !in fs[1..] {
          assert f == fs[0];
          assert forall g :: g in fs[1..] && g.relay == f.relay ==> rest[f.relay] == Off;
        }
      }
    }
  }

  lemma {:induction false} MarkOffAppend(status: map<int, RelayState>, a: seq<Firing>, b: seq<Firing>)
    ensures MarkOff(status, a + b) == MarkOff(MarkOff(status, a), b)
    decreases |a|
  {
    if a != [] {
      assert (a + b)[1..] == a[1..] + b;
      MarkOffAppend(status[a[0].relay := Off], a[1..], b);
    } else {
      assert a + b == b;
    }
  }

  /** From the state `before` to the state `after`, the relays of `fired`
      have rung in turn from UTC second `t` until `finish`, each released
      again; when any rang the next bell was found at the `clock` reading
      after the last, and otherwise it is `bell`. */
  predicate Rang(before: Snapshot, after: Snapshot, fired: seq<Firing>, t: int, finish: int, bell: NextBell,
                 clock: Clock.LocalClock)
  {
    && finish == t + Held(fired)
    && after.actuations == before.actuations + ActuationsOf(fired)
    && after.relayStatus == MarkOff(before.relayStatus, fired)
    && (fired != [] ==> after.nextBell == NextBellAt(after.schedule, clock(finish)))
    && (fired == [] ==> after.nextBell == bell)
  }

  /** Ringing `a` and then `b` under one schedule is ringing `a + b`. */
  lemma RangCompose(s0: Snapshot, s1: Snapshot, s2: Snapshot, a: seq<Firing>, b: seq<Firing>,
                    t0: int, t1: int, t2: int, bell: NextBell, clock: Clock.LocalClock)
    requires Rang(s0, s1, a, t0, t1, bell, clock)
    requires Rang(s1, s2, b, t1, t2, s1.nextBell, clock)
    requires s2.schedule == s1.schedule
    ensures Rang(s0, s2, a + b, t0, t2, bell, clock)
  {
    HeldAppend(a, b);
    assert t2 == t0 + Held(a + b);
    ActuationsAppend(a, b);
    assert s2.actuations == s0.actuations + ActuationsOf(a + b);
    MarkOffAppend(s0.relayStatus, a, b);
    assert s2.relayStatus == MarkOff(s0.relayStatus, a + b);
    if b == [] {
      assert a + b == a;
      assert s2.nextBell == s1.nextBell;
    } else {
      assert a + b != [];
      assert s2.nextBell == NextBellAt(s2.schedule, clock(t2));
    }
  }

  // ---------------------------------------------------------------------------
  // Persisted values

  /** What `save_holiday_status` writes. */
  function HolidayText(status: bool): string {
    if status then "1" else "0"
  }

  /** What `load_holiday_status` makes of the file's contents. */
  function ParseHoliday(content: string): bool {
    Strip(content) == "1"
  }

  /** The holiday file round-trips, also when an editor added blank padding. */
  lemma HolidayRoundTrip(status: bool, lead: string, trail: string)
    requires AllSpace(lead) && AllSpace(trail)
    ensures ParseHoliday(lead + HolidayText(status) + trail) == status
  {
    StripPadded(lead, HolidayText(status), trail);
  }

  /** A schedule name without surrounding blanks survives being saved to and
      read back from the active-schedule file. */
  lemma ActiveNameRoundTrip(name: string)
    requires IsStripped(name)
    ensures Strip(name) == name
  {
    StripPadded("", name, "");
    assert "" + name + "" == name;
  }

  // ---------------------------------------------------------------------------
  // Uptime and pixel shift

  datatype Uptime = Uptime(days: int, hours: int, minutes: int, seconds: int)

  /** `get_uptime_str`'s decomposition of the elapsed milliseconds. */
  function UptimeOf(elapsedMs: int): (u: Uptime)
    ensures 0 <= u.hours < 24 && 0 <= u.minutes < 60 && 0 <= u.seconds < 60
    ensures u.days * 86400 + u.hours * 3600 + u.minutes * 60 + u.seconds == elapsedMs / 1000
  {
    var s := elapsedMs / 1000;
    DayClock(s);
    Uptime(s / 86400, s % 86400 / 3600, s % 3600 / 60, s % 60)
  }

  /** Days, hours of the day, minutes of the hour and seconds of the minute
      add back up to the seconds they were taken from. */
  lemma DayClock(s: int)
    ensures 0 <= s % 86400 / 3600 < 24
    ensures s / 86400 * 86400 + s % 86400 / 3600 * 3600 + s % 3600 / 60 * 60 + s % 60 == s
  {
    NestedRemainders(s);
    var r := s % 86400;
    assert s == s / 86400 * 86400 + r;
    assert r == r / 3600 * 3600 + s % 3600;
    assert s % 3600 == s % 3600 / 60 * 60 + s % 60;
  }

  /** Taking the remainder by a day first does not change the remainder by
      an hour, nor taking it by an hour the remainder by a minute. */
  lemma NestedRemainders(s: int)
    ensures s % 86400 % 3600 == s % 3600
    ensures s % 3600 % 60 == s % 60
  {
    assert s % 86400 % 3600 == s % 3600 by {
      var r := s % 86400;
      assert s == s / 86400 * 86400 + r;
      assert s == (s / 86400 * 24 + r / 3600) * 3600 + r % 3600;
    }
    assert s % 3600 % 60 == s % 60 by {
      var r := s % 3600;
      assert s == s / 3600 * 3600 + r;
      assert s == (s / 3600 * 60 + r / 60) * 60 + r % 60;
    }
  }

  /** `f"{n}"` for any integer. */
  function IntText(n: int): string {
    if n < 0 then "-" + NatToDecimal(-n) else NatToDecimal(n)
  }

  /** `"{d}d {h}h {m}m {s}s"`. */
  function UptimeText(elapsedMs: int): string {
    var u := UptimeOf(elapsedMs);
    IntText(u.days) + "d " + IntText(u.hours) + "h " + IntText(u.minutes) + "m " + IntText(u.seconds) + "s"
  }

  /** `shifts = [(1,0), (1,1), (0,1), (0,0)]`. */
  const SHIFTS: seq<(int, int)> := [(1, 0), (1, 1), (0, 1), (0, 0)]

  /** The shift direction after `n` steps from `d`. */
  function Advance(d: int, n: nat): (r: int)
    ensures 0 <= r < 4
  {
    if n == 0 then d % 4 else (Advance(d, n - 1) + 1) % 4
  }

  /** The burn-in shift moves the picture by at most one pixel each way, and
      four steps visit the four offsets and come back to where they started. */
  lemma {:induction false} ShiftCycle(d: int)
    requires 0 <= d < 4
    ensures forall i :: 0 <= i < 4 ==> SHIFTS[i].0 in {0, 1} && SHIFTS[i].1 in {0, 1}
    ensures Advance(d, 4) == d
    ensures forall i, j :: 0 <= i < j < 4 ==> SHIFTS[Advance(d, i)] != SHIFTS[Advance(d, j)]
  {
    assert Advance(d, 1) == (d + 1) % 4;
    assert Advance(d, 2) == (d + 2) % 4;
    assert Advance(d, 3) == (d + 3) % 4;
  }

  // ---------------------------------------------------------------------------
  // The device

  class Device {
    /** Hardware found at boot: `display`, `backlight`, `touch` not None. */
    const hasDisplay: bool
    const hasBacklight: bool
    const hasTouch: bool
    /** `get_local_time`, read at a UTC second. */
    const clock: Clock.LocalClock
    /** The order in which a parsed `schedules` object yields its keys. */
    const firstKey: KeyChoice

    /** The flash files `holiday.dat`, `active_schedule.txt` and
        `schedule.json` (None: absent or unreadable). */
    var holidayFile: Option<string>
    var activeFile: Option<string>
    var cacheFile: Option<Schedule>

    var schedule: Schedule
    var nextBell: NextBell
    var manifest: Option<Manifest>
    var activeName: string
    var holiday: bool
    var wifiFailed: bool
    var relayStatus: map<int, RelayState>
    /** Every relay energising so far, in order. */
    var actuations: seq<Actuation>
    var displayOn: bool
    var lastActivity: int
    var touch: TouchState
    var shiftX: int
    var shiftY: int
    var shiftDirection: int
    var lastShift: int
    var lastCheckMinute: int
    /** Whether the Wi-Fi setup portal was entered (it never returns). */
    var setupMode: bool

    ghost predicate Valid()
      reads this
    {
      Touch.Inv(touch) && 0 <= shiftDirection < 4 &&
      ((shiftX, shiftY) == (0, 0) || (shiftX, shiftY) == SHIFTS[shiftDirection]) &&
      (!displayOn ==> hasBacklight)
    }

    /** The globals as the module sets them up, over the given flash files. */
    constructor (t: int, localClock: Clock.LocalClock, keyOrder: KeyChoice, display: bool, backlight: bool, touchPanel: bool,
                 holidayContent: Option<string>, activeContent: Option<string>, cache: Option<Schedule>)
      ensures Valid()
      ensures clock == localClock && firstKey == keyOrder
      ensures hasDisplay == display && hasBacklight == backlight && hasTouch == touchPanel
      ensures holidayFile == holidayContent && activeFile == activeContent && cacheFile == cache
      ensures schedule == map[] && nextBell == NoBell && manifest == None
      ensures activeName == "Default" && !holiday && !wifiFailed
      ensures relayStatus == map[1 := Off, 2 := Off] && actuations == []
      ensures displayOn && lastActivity == t && touch == IDLE
      ensures shiftX == 0 && shiftY == 0 && shiftDirection == 0 && lastShift == t
      ensures lastCheckMinute == -1 && !setupMode
    {
      clock, firstKey := localClock, keyOrder;
      hasDisplay, hasBacklight, hasTouch := display, backlight, touchPanel;
      holidayFile, activeFile, cacheFile := holidayContent, activeContent, cache;
      schedule, nextBell, manifest := map[], NoBell, None;
      activeName, holiday, wifiFailed := "Default", false, false;
      relayStatus, actuations := map[1 := Off, 2 := Off], [];
      displayOn, lastActivity, touch := true, t, IDLE;
      shiftX, shiftY, shiftDirection, lastShift := 0, 0, 0, t;
      lastCheckMinute, setupMode := -1, false;
    }

    /** The display state after `wake_display` at time `t`. */
    twostate predicate WokenBy(t: int)
      reads this`displayOn, this`lastActivity
    {
      displayOn == (old(displayOn) || hasBacklight) && lastActivity == t
    }

    /** The display state after `update_display` at time `t`: a wake when a
        display is present, nothing otherwise. */
    twostate predicate RefreshedBy(t: int)
      reads this`displayOn, this`lastActivity
    {
      if hasDisplay then WokenBy(t)
      else displayOn == old(displayOn) && lastActivity == old(lastActivity)
    }

    /** The current values of the fields a `Snapshot` holds. */
    function Snap(): Snapshot
      reads this`manifest, this`activeName, this`activeFile, this`schedule, this`cacheFile, this`nextBell, this`actuations, this`relayStatus
    {
      Snapshot(manifest, activeName, activeFile, schedule, cacheFile, nextBell, actuations, relayStatus)
    }

    /** `Adopted` from `before` to `after`, and the next bell found at time
        `t` for a new schedule and unchanged otherwise. */
    predicate FetchedBy(before: Snapshot, after: Snapshot, t: int, doc: Option<ManifestDoc>,
                        download: string -> Option<Schedule>, name: string, file: Option<string>, outcome: FetchOutcome)
    {
      && Adopted(before, after, doc, download, name, file, firstKey, outcome)
      && after.nextBell == (if outcome == Fetched then NextBellAt(after.schedule, clock(t)) else before.nextBell)
    }

    /** `wake_display`. */
    method WakeDisplay(t: int)
      modifies this`displayOn, this`lastActivity
      ensures WokenBy(t)
    {
      if hasBacklight && !displayOn {
        displayOn := true;
      }
      lastActivity := t;
    }

    /** `update_display` as far as the model sees it: drawing is left out, and
        with a display present it wakes the screen. */
    method UpdateDisplay(t: int)
      modifies this`displayOn, this`lastActivity
      ensures RefreshedBy(t)
    {
      if !hasDisplay {
        return;
      }
      WakeDisplay(t);
    }

    /** `manage_display_power`: switch the backlight off after the timeout. */
    method ManageDisplayPower(t: int)
      requires Valid()
      modifies this`displayOn
      ensures Valid()
      ensures displayOn == (old(displayOn) && !(hasBacklight && t - lastActivity > Config.SCREEN_OFF_TIMEOUT))
    {
      if hasBacklight && displayOn && t - lastActivity > Config.SCREEN_OFF_TIMEOUT {
        displayOn := false;
      }
    }

    /** `manage_pixel_shift`: one step of the four-offset cycle once more than
        the interval has passed, only while the screen is on. */
    method ManagePixelShift(t: int)
      requires Valid()
      modifies this`shiftX, this`shiftY, this`shiftDirection, this`lastShift
      ensures Valid()
      ensures if old(displayOn) && t - old(lastShift) > Config.PIXEL_SHIFT_INTERVAL_S then
                shiftDirection == Advance(old(shiftDirection), 1) &&
                (shiftX, shiftY) == SHIFTS[shiftDirection] && lastShift == t
              else
                shiftDirection == old(shiftDirection) && shiftX == old(shiftX) &&
                shiftY == old(shiftY) && lastShift == old(lastShift)
    {
      var shiftInterval := Config.PIXEL_SHIFT_INTERVAL_S;
      if !displayOn || shiftInterval <= 0 {
        return;
      }
      if t - lastShift > shiftInterval {
        shiftDirection := (shiftDirection + 1) % 4;
        shiftX, shiftY := SHIFTS[shiftDirection].0, SHIFTS[shiftDirection].1;
        lastShift := t;
      }
    }

    // -------------------------------------------------------------------------
    // Persistence

    /** `save_holiday_status`. */
    method SaveHoliday(status: bool)
      modifies this`holiday, this`holidayFile
      ensures holiday == status && holidayFile == Some(HolidayText(status))
    {
      holiday := status;
      holidayFile := Some(HolidayText(status));
    }

    /** `load_holiday_status`: the file decides; a missing file is created
        holding "0". */
    method LoadHoliday()
      modifies this`holiday, this`holidayFile
      ensures old(holidayFile).Some? ==> holiday == ParseHoliday(old(holidayFile).value) && holidayFile == old(holidayFile)
      ensures old(holidayFile).None? ==> !holiday && holidayFile == Some("0")
    {
      if holidayFile.Some? {
        holiday := ParseHoliday(holidayFile.value);
      } else {
        SaveHoliday(false);
      }
    }

    /** `save_active_schedule_name`. */
    method SaveActiveName(name: string)
      modifies this`activeName, this`activeFile
      ensures activeName == name && activeFile == Some(name)
    {
      activeName := name;
      activeFile := Some(name);
    }

    /** `load_active_schedule_name`: the stripped file contents, or the name
        already held when there is no file. */
    method LoadActiveName()
      modifies this`activeName
      ensures activeName == if activeFile.Some? then Strip(activeFile.value) else old(activeName)
    {
      if activeFile.Some? {
        activeName := Strip(activeFile.value);
      }
    }

    /** `save_schedule_to_cache`. */
    method SaveCache(data: Schedule)
      modifies this`cacheFile
      ensures cacheFile == Some(data)
    {
      cacheFile := Some(data);
    }

    /** `load_schedule_from_cache`: the cached schedule and its next bell, or
        the empty schedule (next bell untouched) when there is no cache. */
    method LoadCache(t: int)
      modifies this`schedule, this`nextBell
      ensures cacheFile.Some? ==> schedule == cacheFile.value && nextBell == NextBellAt(schedule, clock(t))
      ensures cacheFile.None? ==> schedule == map[] && nextBell == old(nextBell)
    {
      if cacheFile.Some? {
        schedule := cacheFile.value;
        RecomputeNextBell(clock(t));
      } else {
        schedule := map[];
      }
    }

    /** `find_next_bell` on the device's schedule at local time `now`. */
    method RecomputeNextBell(now: Clock.DateTime)
      requires 0 <= now.weekday < 7
      modifies this`nextBell
      ensures nextBell == NextBellAt(schedule, now)
    {
      nextBell := FindNextBell(schedule, now);
    }

    // -------------------------------------------------------------------------
    // Fetch

    /** The first half of `fetch_manifest_and_schedule`: validate the
        downloaded manifest, commit it, and settle the active schedule name
        (the key `firstKey` picks, persisted, when the current one is not listed). */
    method AdoptManifest(t: int, doc: Option<ManifestDoc>) returns (plan: FetchPlan)
      modifies this`manifest, this`activeName, this`activeFile, this`displayOn, this`lastActivity
      ensures plan == PlanFetch(doc, old(activeName), firstKey)
      ensures RefreshedBy(t)
      ensures plan == Invalid ==> manifest == old(manifest)
      ensures plan != Invalid ==> manifest == Some(plan.m)
      ensures activeName == if plan.Download? then plan.name else old(activeName)
      ensures activeFile == if activeName != old(activeName) then Some(activeName) else old(activeFile)
    {
      UpdateDisplay(t);
      if doc.None? || doc.value.baseUrl.None? || doc.value.schedules.None? {
        UpdateDisplay(t);
        return Invalid;
      }
      var m := Manifest(doc.value.baseUrl.value, doc.value.schedules.value);
      manifest := Some(m);
      if !HasKey(m.schedules, activeName) {
        if m.schedules == [] {
          return NoSchedules(m);
        }
        SaveActiveName(m.schedules[firstKey(m.schedules) % |m.schedules|].0);
        assert HasKey(m.schedules, activeName) by { assert m.schedules[firstKey(m.schedules) % |m.schedules|].0 == activeName; }
      }
      var url := m.baseUrl + Lookup(m.schedules, activeName);
      UpdateDisplay(t);
      plan := Download(m, activeName, url);
    }

    /** `fetch_manifest_and_schedule` at time `t`, given the manifest download
        `doc` and the schedule server `download` (URL to parsed schedule,
        None on failure). A falsy schedule (`{}`) counts as a failed download;
        the manifest stays committed either way. */
    method Fetch(t: int, doc: Option<ManifestDoc>, download: string -> Option<Schedule>) returns (outcome: FetchOutcome)
      modifies this`manifest, this`activeName, this`activeFile, this`schedule, this`cacheFile,
               this`nextBell, this`displayOn, this`lastActivity
      ensures RefreshedBy(t)
      ensures FetchedBy(old(Snap()), Snap(), t, doc, download, old(activeName), old(activeFile), outcome)
    {
      var plan := AdoptManifest(t, doc);
      if plan == Invalid {
        return ManifestInvalid;
      } else if plan.NoSchedules? {
        return Raised;
      }
      var ok := AdoptSchedule(t, download(plan.url));
      outcome := if ok then Fetched else DownloadFailed;
    }

    /** The second half of `fetch_manifest_and_schedule`: a truthy download
        replaces the schedule, is cached and gets its next bell; anything else
        leaves all three alone. */
    method AdoptSchedule(t: int, newSchedule: Option<Schedule>) returns (ok: bool)
      modifies this`schedule, this`cacheFile, this`nextBell, this`displayOn, this`lastActivity
      ensures RefreshedBy(t)
      ensures ok <==> newSchedule.Some? && |newSchedule.value| > 0
      ensures ok ==> schedule == newSchedule.value && cacheFile == Some(schedule) &&
                     nextBell == NextBellAt(schedule, clock(t))
      ensures !ok ==> schedule == old(schedule) && cacheFile == old(cacheFile) && nextBell == old(nextBell)
    {
      if newSchedule.Some? && |newSchedule.value| > 0 {
        schedule := newSchedule.value;
        SaveCache(schedule);
        RecomputeNextBell(clock(t));
        UpdateDisplay(t);
        return true;
      } else {
        UpdateDisplay(t);
        return false;
      }
    }

    /** The quick-set routes' `set_schedule_action(name)`: switch and fetch
        only when the current manifest lists `name`. When the fetch raises,
        no message is returned: the exception reaches the request handler. */
    method SetScheduleAction(name: string, t: int, doc: Option<ManifestDoc>, download: string -> Option<Schedule>)
      returns (message: Option<string>, outcome: Option<FetchOutcome>)
      modifies this`manifest, this`activeName, this`activeFile, this`schedule, this`cacheFile,
               this`nextBell, this`displayOn, this`lastActivity
      ensures var known := old(manifest).Some? && HasKey(old(manifest).value.schedules, name);
              && (outcome.Some? <==> known)
              && (message == if !known then Some("Schedule name not found")
                             else if outcome.value == Raised then None
                             else Some("Schedule set to " + name))
              && (known ==> RefreshedBy(t) && FetchedBy(old(Snap()), Snap(), t, doc, download, name, Some(name), outcome.value))
              && (!known ==> Untouched(old(Snap()), Snap()) && displayOn == old(displayOn) && lastActivity == old(lastActivity))
    {
      if manifest.Some? && HasKey(manifest.value.schedules, name) {
        SaveActiveName(name);
        var o := Fetch(t, doc, download);
        if o == Raised {
          return None, Some(o);
        }
        return Some("Schedule set to " + name), Some(o);
      }
      return Some("Schedule name not found"), None;
    }

    /** The `POST /set_schedule` route: the submitted name is saved without
        any check, then fetched; a name the new manifest does not list is
        replaced by the key its `schedules` object yields first. */
    method PostSetSchedule(name: string, t: int, doc: Option<ManifestDoc>, download: string -> Option<Schedule>)
      returns (outcome: FetchOutcome)
      modifies this`manifest, this`activeName, this`activeFile, this`schedule, this`cacheFile,
               this`nextBell, this`displayOn, this`lastActivity
      ensures RefreshedBy(t)
      ensures FetchedBy(old(Snap()), Snap(), t, doc, download, name, Some(name), outcome)
    {
      SaveActiveName(name);
      outcome := Fetch(t, doc, download);
    }

    // -------------------------------------------------------------------------
    // Relays and the minute-edge trigger

    /** `activate_relay`: the status entry goes ON, the pin is energised for
        `duration` seconds, and the entry goes back OFF. */
    method ActivateRelay(relay: int, duration: int, t: int)
      modifies this`relayStatus, this`actuations, this`displayOn, this`lastActivity
      ensures relayStatus == old(relayStatus)[relay := Off]
      ensures actuations == old(actuations) + [Actuation(Channel(relay), duration)]
      ensures RefreshedBy(t)
    {
      relayStatus := relayStatus[relay := On];
      UpdateDisplay(t);
      actuations := actuations + [Actuation(Channel(relay), duration)];
      relayStatus := relayStatus[relay := Off];
    }

    /** The main loop's trigger block at UTC second `t`, the local time being
        `now := get_local_time()` (`ntpOk`: whether the 07:30 `sync_time`
        succeeds): once per new value of the minute field, unless Wi-Fi
        failed or holiday mode is on. Returns the outcome of the 07:30 resync
        fetch when there was one; `Raised` ends the loop. */
    method CheckMinute(t: int, ntpOk: bool, doc: Option<ManifestDoc>, download: string -> Option<Schedule>)
      returns (ran: bool, resync: Option<FetchOutcome>, finish: int)
      modifies this`lastCheckMinute, this`relayStatus, this`actuations, this`displayOn, this`lastActivity,
               this`manifest, this`activeName, this`activeFile, this`schedule, this`cacheFile, this`nextBell
      ensures var now := clock(t);
              var edge := !wifiFailed && now.minute != old(lastCheckMinute);
              && (lastCheckMinute == if edge then now.minute else old(lastCheckMinute))
              && ran == (edge && !holiday)
      ensures ran ==> Triggered(old(Snap()), t, ntpOk, doc, download, resync, finish)
      ensures !ran ==> resync == None && finish == t && Snap() == old(Snap())
    {
      ran, resync, finish := false, None, t;
      var edge := MinuteEdge(t);
      if edge && !holiday {
        ran := true;
        resync, finish := RingBells(t, ntpOk, doc, download);
      }
    }

    /** The trigger block's test at UTC second `t`: a new value of the minute
        field, Wi-Fi being up, is recorded; the screen is redrawn when on. */
    method MinuteEdge(t: int) returns (edge: bool)
      modifies this`lastCheckMinute, this`displayOn, this`lastActivity
      ensures edge == (!wifiFailed && clock(t).minute != old(lastCheckMinute))
      ensures lastCheckMinute == if edge then clock(t).minute else old(lastCheckMinute)
      ensures Snap() == old(Snap())
    {
      var now := clock(t);
      edge := !wifiFailed && now.minute != lastCheckMinute;
      if edge {
        lastCheckMinute := now.minute;
      }
      if (wifiFailed || edge) && displayOn {
        UpdateDisplay(t);
      }
    }

    /** What the trigger block's body did since the previous state, at UTC
        second `t`: the 07:30 resync fetch (its outcome `resync`), then
        today's entries due at the current "HH:MM", rung until `finish`. */
    predicate Triggered(before: Snapshot, t: int, ntpOk: bool, doc: Option<ManifestDoc>,
                        download: string -> Option<Schedule>, resync: Option<FetchOutcome>, finish: int)
      reads this`manifest, this`activeName, this`activeFile, this`schedule, this`cacheFile, this`nextBell, this`actuations, this`relayStatus
    {
      var now := clock(t);
      var hhmm := Hhmm(now.hour, now.minute);
      && (resync.Some? <==> hhmm == "07:30" && ntpOk)
      && (resync.Some? ==> Adopted(before, Snap(), doc, download, before.activeName, before.activeFile, firstKey, resync.value))
      && (resync.None? ==> Kept(before, Snap()))
      && Rang(before, Snap(), if resync != Some(Raised) then Due(DayEvents(schedule, now.weekday), hhmm) else [],
              t, finish, if resync == Some(Fetched) then NextBellAt(schedule, now) else before.nextBell, clock)
    }

    /** The body of the trigger block at UTC second `t`: the 07:30 resync,
        then today's entries due at the current "HH:MM". */
    method RingBells(t: int, ntpOk: bool, doc: Option<ManifestDoc>, download: string -> Option<Schedule>)
      returns (resync: Option<FetchOutcome>, finish: int)
      modifies this`relayStatus, this`actuations, this`displayOn, this`lastActivity,
               this`manifest, this`activeName, this`activeFile, this`schedule, this`cacheFile, this`nextBell
      ensures Triggered(old(Snap()), t, ntpOk, doc, download, resync, finish)
    {
      var now := clock(t);
      var currentTime := Hhmm(now.hour, now.minute);
      finish := t;
      resync := MorningResync(t, currentTime, ntpOk, doc, download);
      if resync != Some(Raised) {
        finish := FireToday(t, now, currentTime);
      }
    }

    /** The 07:30 resync of the trigger block: `sync_time` (which redraws),
        then a fetch when the clock was set. */
    method MorningResync(t: int, currentTime: string, ntpOk: bool, doc: Option<ManifestDoc>, download: string -> Option<Schedule>)
      returns (resync: Option<FetchOutcome>)
      modifies this`displayOn, this`lastActivity,
               this`manifest, this`activeName, this`activeFile, this`schedule, this`cacheFile, this`nextBell
      ensures currentTime == "07:30" ==> RefreshedBy(t)
      ensures currentTime != "07:30" ==> displayOn == old(displayOn) && lastActivity == old(lastActivity)
      ensures resync.Some? <==> currentTime == "07:30" && ntpOk
      ensures resync.Some? ==> FetchedBy(old(Snap()), Snap(), t, doc, download, old(activeName), old(activeFile), resync.value)
      ensures resync.None? ==> Untouched(old(Snap()), Snap())
    {
      resync := None;
      if currentTime == "07:30" {
        UpdateDisplay(t);
        if ntpOk {
          var o := Fetch(t, doc, download);
          resync := Some(o);
        }
      }
    }

    /** Look up today's entries (`schedule[str(weekday)]`) and fire those
        due at `currentTime`, the first of them at UTC second `t`; `clock`
        is the local time `get_local_time` reads at each UTC second. */
    method FireToday(t: int, now: Clock.DateTime, currentTime: string)
      returns (finish: int)
      requires 0 <= now.weekday < 7
      modifies this`relayStatus, this`actuations, this`displayOn, this`lastActivity, this`nextBell
      ensures Rang(old(Snap()), Snap(), Due(DayEvents(schedule, now.weekday), currentTime), t, finish, old(nextBell), clock)
    {
      finish := FireDue(DayEvents(schedule, now.weekday), currentTime, t);
    }

    /** One entry of the trigger's loop, starting at UTC second `t`: when its
        time is the current "HH:MM" and it names a relay, energise that relay
        for its length, then find the next bell at the clock's reading once
        the relay is released. Returns that reading's UTC second. */
    method FireEntry(entry: BellEvent, currentTime: string, t: int)
      returns (finish: int)
      modifies this`relayStatus, this`actuations, this`displayOn, this`lastActivity, this`nextBell
      ensures Rang(old(Snap()), Snap(), Due([entry], currentTime), t, finish, old(Snap()).nextBell, clock)
      ensures Due([entry], currentTime) == [] ==> finish == t
    {
      assert [entry][1..] == [];
      finish := t;
      if entry.time == currentTime {
        var duration := entry.bellLength.GetOr(Config.RELAY_ON_DURATION);
        var relay := entry.relay;
        if relay.Some? && relay.value != 0 {
          ActivateRelay(relay.value, duration, t);
          finish := t + duration;
          RecomputeNextBell(clock(finish));
          UpdateDisplay(finish);
          assert Due([entry], currentTime) == [FiringOf(entry)];
          assert [FiringOf(entry)][1..] == [];
        }
      }
    }

    /** The trigger's loop over today's entries, in list order, starting at
        UTC second `t`; every relay hold moves the clock on. Returns the UTC
        second at which the loop ends. */
    method FireDue(entries: seq<BellEvent>, currentTime: string, t: int)
      returns (finish: int)
      modifies this`relayStatus, this`actuations, this`displayOn, this`lastActivity, this`nextBell
      ensures Rang(old(Snap()), Snap(), Due(entries, currentTime), t, finish, old(nextBell), clock)
    {
      finish := t;
      for i := 0 to |entries|
        invariant Rang(old(Snap()), Snap(), Due(entries[..i], currentTime), t, finish, old(nextBell), clock)
      {
        finish := FireNext(old(Snap()), old(nextBell), entries, i, currentTime, t, finish);
      }
      assert entries[..|entries|] == entries;
    }

    /** One turn of the trigger's loop: entry `i` fires from the UTC second
        `finish` at which the earlier entries, rung since `before`, ended. */
    method FireNext(ghost before: Snapshot, ghost bell: NextBell, entries: seq<BellEvent>, i: nat,
                    currentTime: string, t: int, finish: int)
      returns (end: int)
      requires i < |entries|
      requires Rang(before, Snap(), Due(entries[..i], currentTime), t, finish, bell, clock)
      modifies this`relayStatus, this`actuations, this`displayOn, this`lastActivity, this`nextBell
      ensures Rang(before, Snap(), Due(entries[..i + 1], currentTime), t, end, bell, clock)
    {
      ghost var mid := Snap();
      end := FireEntry(entries[i], currentTime, finish);
      assert entries[..i + 1] == entries[..i] + [entries[i]];
      DueAppend(entries[..i], [entries[i]], currentTime);
      RangCompose(before, mid, Snap(), Due(entries[..i], currentTime), Due([entries[i]], currentTime),
                  t, finish, end, bell, clock);
    }

    // -------------------------------------------------------------------------
    // Touch

    /** `handle_touch` for one poll: `pos` is the panel's reading (None: no
        contact), `nowMs` the tick count; the sync button's fetch uses `doc`
        and `download`. Returns that fetch's outcome when it ran. */
    method HandleTouch(pos: Option<Point>, nowMs: int, t: int, doc: Option<ManifestDoc>, download: string -> Option<Schedule>)
      returns (synced: Option<FetchOutcome>)
      requires Valid()
      modifies this`touch, this`holiday, this`holidayFile, this`setupMode, this`displayOn, this`lastActivity,
               this`manifest, this`activeName, this`activeFile, this`schedule, this`cacheFile, this`nextBell
      ensures Valid()
      ensures !hasTouch ==> touch == old(touch) && synced.None? && holiday == old(holiday) && setupMode == old(setupMode) &&
                            holidayFile == old(holidayFile) && displayOn == old(displayOn) && lastActivity == old(lastActivity)
      ensures hasTouch ==>
              var (st, eff) := Step(old(touch), pos, old(displayOn), wifiFailed, nowMs);
              && (synced.Some? <==> eff.sync)
              && (touch == if synced == Some(Raised) then old(touch) else st)
              && (holiday == if eff.toggleHoliday then !old(holiday) else old(holiday))
              && (setupMode == (old(setupMode) || eff.setup))
              && (holidayFile == if eff.toggleHoliday then Some(HolidayText(holiday)) else old(holidayFile))
              && (eff.wake ==> displayOn)
      ensures synced.Some? ==> var fetched := FetchedBy(old(Snap()), Snap(), t, doc, download, old(activeName), old(activeFile), synced.value); fetched
      ensures synced.None? ==> var kept := Untouched(old(Snap()), Snap()); kept
    {
      synced := None;
      if !hasTouch {
        return;
      }
      if pos.None? {
        synced := TouchUp(t, doc, download);
      } else if !displayOn {
        WakeDisplay(t);
        touch := touch.(lock := true);
      } else {
        TouchDown(pos.value, nowMs, t);
      }
    }

    /** A poll with contact at `p` while the screen is on: the hit test on
        first contact, then the holiday long press check. */
    method TouchDown(p: Point, nowMs: int, t: int)
      requires Valid() && displayOn
      modifies this`touch, this`holiday, this`holidayFile, this`displayOn, this`lastActivity
      ensures Valid()
      ensures var (st, eff) := Press(old(touch), p, wifiFailed, nowMs);
              && touch == st
              && (holiday == if eff.toggleHoliday then !old(holiday) else old(holiday))
              && (holidayFile == if eff.toggleHoliday then Some(HolidayText(holiday)) else old(holidayFile))
    {
      if !touch.lock {
        touch := touch.(lock := true);
        if wifiFailed && Inside(SETUP_BUTTON_RECT, p) {
          touch := touch.(held := SetupButton);
        } else if Inside(SYNC_BUTTON_RECT, p) {
          touch := touch.(held := SyncButton, start := nowMs);
        } else if Inside(HOLIDAY_BUTTON_RECT, p) {
          touch := touch.(held := HolidayButton, start := nowMs);
        }
      }
      if touch.held == HolidayButton && !touch.longPress {
        if nowMs - touch.start > LONG_PRESS_MS {
          touch := touch.(longPress := true);
          SaveHoliday(!holiday);
          UpdateDisplay(t);
        }
      }
    }

    /** The sync button's action: `sync_time` (which redraws), then a fetch
        whatever the clock sync gave. */
    method SyncNow(t: int, doc: Option<ManifestDoc>, download: string -> Option<Schedule>)
      returns (outcome: FetchOutcome)
      modifies this`displayOn, this`lastActivity,
               this`manifest, this`activeName, this`activeFile, this`schedule, this`cacheFile, this`nextBell
      ensures RefreshedBy(t)
      ensures FetchedBy(old(Snap()), Snap(), t, doc, download, old(activeName), old(activeFile), outcome)
    {
      UpdateDisplay(t);
      outcome := Fetch(t, doc, download);
    }

    /** A poll without contact: enter the setup portal, or run the sync
        button's action, then redraw and reset the four touch globals. */
    method TouchUp(t: int, doc: Option<ManifestDoc>, download: string -> Option<Schedule>)
      returns (synced: Option<FetchOutcome>)
      requires Valid()
      modifies this`touch, this`setupMode, this`displayOn, this`lastActivity,
               this`manifest, this`activeName, this`activeFile, this`schedule, this`cacheFile, this`nextBell
      ensures Valid()
      ensures var (st, eff) := Release(old(touch));
              && (synced.Some? <==> eff.sync)
              && (touch == if synced == Some(Raised) then old(touch) else st)
              && (setupMode == (old(setupMode) || eff.setup))
      ensures synced.Some? ==> var fetched := FetchedBy(old(Snap()), Snap(), t, doc, download, old(activeName), old(activeFile), synced.value); fetched
      ensures synced.None? ==> var kept := Untouched(old(Snap()), Snap()); kept
    {
      synced := None;
      if touch.held == SetupButton {
        setupMode := true;
      } else {
        synced := ReleaseSync(t, doc, download);
        if synced != Some(Raised) {
          ResetTouch(t);
        }
      }
    }

    /** The end of a poll without contact: redraw if a touch was latched, then
        reset the four touch globals. */
    method ResetTouch(t: int)
      requires Valid()
      modifies this`touch, this`displayOn, this`lastActivity
      ensures Valid()
      ensures touch == IDLE && Snap() == old(Snap())
      ensures old(touch).lock ==> RefreshedBy(t)
      ensures !old(touch).lock ==> displayOn == old(displayOn) && lastActivity == old(lastActivity)
    {
      if touch.lock {
        UpdateDisplay(t);
      }
      touch := IDLE;
    }

    /** Releasing the sync button runs its action unless the press was a
        long one. */
    method ReleaseSync(t: int, doc: Option<ManifestDoc>, download: string -> Option<Schedule>)
      returns (synced: Option<FetchOutcome>)
      requires Valid()
      modifies this`displayOn, this`lastActivity,
               this`manifest, this`activeName, this`activeFile, this`schedule, this`cacheFile, this`nextBell
      ensures Valid()
      ensures synced.Some? <==> touch.held == SyncButton && !touch.longPress
      ensures synced.Some? ==> RefreshedBy(t) && FetchedBy(old(Snap()), Snap(), t, doc, download, old(activeName), old(activeFile), synced.value)
      ensures synced.None? ==> Untouched(old(Snap()), Snap()) && displayOn == old(displayOn) && lastActivity == old(lastActivity)
    {
      synced := None;
      if touch.held == SyncButton && !touch.longPress {
        var o := SyncNow(t, doc, download);
        synced := Some(o);
      }
    }
  }
}
