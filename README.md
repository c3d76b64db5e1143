# BellTimer controller — a Dafny model

BellTimer is a MicroPython school-bell controller for an ESP32 board with a
touchscreen. It keeps a weekly schedule of bell events, downloaded from a
manifest server and cached on flash. It also keeps UK local time from NTP,
with British Summer Time. Once per new minute it energises the bell relays
whose events are due. A touch panel offers a sync button, a long-press
holiday toggle and a Wi-Fi setup button. The device can update its own files
from GitHub.

This project models the controller's core in Dafny and proves properties of it:

- `wrappers.dfy`: `Option`.
- `config.dfy`: the configuration constants the logic reads.
- `text.dfy`: the Python string operations the code relies on: `strip`,
  `rstrip`, `split`, `join`, `str`/`int` on decimals and `:02d`.
- `clock.dfy`: `utime.localtime`, the last-Sunday formula, `is_bst` and
  `get_local_time`.
- `schedule.dfy`: bell events, "HH:MM" times and their order. It holds the
  next-bell search `find_next_bell`, as a specification and as the loop
  method, and the relay activations due at a minute.
- `touch.dfy`: the touch handler's state machine as a pure step function.
- `device.dfy`: the module globals of `main.py` as the class
  `BellController.Device`. It covers persistence, the manifest and schedule
  fetch, relay activation, the minute-edge trigger, the touch handler, the
  screen timeout, the pixel shift and the uptime text.
- `ota.dfy`: `OTAUpdater`, with the flash file system as the class `Ota.Flash`.
- `st7789.dfy`: the ST7789 display driver as the class `St7789.ST7789`.
  Its bus is an append-only log of pin levels, SPI writes and pauses.
  `Packets` reads that log the way the panel does: a transfer counts only
  while chip select is low, tagged with the data/command level. The file
  also holds the text helpers `write` and `width`.

Time is passed in rather than read:

- the UTC epoch second `t`, where the code calls `utime.time()`;
- the millisecond tick count `nowMs`, for `utime.ticks_ms()`;
- the local time `clock(s)` at UTC second `s`, where the code calls
  `get_local_time()`. `clock` is a constructor parameter of
  `BellController.Device` of type `Clock.LocalClock`: any function from
  UTC seconds to in-range `DateTime`s. The firmware's clock is
  `Clock.LOCAL_CLOCK`, which is `Clock.LocalTime` (`get_local_time`) itself.
  Because every relay hold moves the clock on, the trigger reads the clock
  again after each bell.

The order of a parsed JSON object's keys is passed in too. When the active
name is not listed, `fetch_manifest_and_schedule` takes
`next(iter(schedule_manifest["schedules"]))` (main.py:245). A MicroPython
`dict` yields its keys in hash-table order, not document order. So the choice
is `BellController.KeyChoice`, a function from the object's entries to a
number. The entry yielded first is the one at that number modulo the count
of entries, so every choice names an entry and every entry can be chosen.
It is passed to `PlanFetch`, and the device holds it in the constant
`firstKey`, which its constructor sets. The constant choice 0 is the document
order an insertion-ordered dictionary would give.

Downloads are functions from URL to result:

- the manifest is an `Option<ManifestDoc>`;
- the schedule server is `string -> Option<Schedule>`;
- GitHub is `string -> Option<Response>`.

None stands for a request that failed or raised.

Two behaviours of the code are worth stating plainly:

- `handle_web_request` (main.py:313) serves every route to any client. It
  checks no session, cookie or key, so the model has no authentication.
- The holiday toggle fires only once more than 2000 ms have passed since
  the press (`> 2000`, main.py:468). `Touch.LongPressOnce` states that
  strict bound.

## Model

| member | source | states |
|---|---|---|
| Text.StripPadded | main.py:96 | `strip()` of a stripped string with blank padding on both sides gives the string back. This is what a value written to a file and read back with `read().strip()` yields. |
| Text.RStrip | ota_updater.py:16 | `rstrip(c)` returns a prefix of the input that does not end in `c`, and every character it removed is `c`. |
| Text.RStripPadded | ota_updater.py:16 | `rstrip(c)` removes exactly the run of `c` appended to a string that does not end in `c`. |
| Text.SplitJoin | ota_updater.py:21 | Joining the pieces of `split(sep)` with `sep` gives the original string, and no piece contains the separator. |
| Text.SplitPieces | ota_updater.py:21-23 | `split(sep)` yields at least two pieces exactly when the separator occurs, which is when `parts[-2]` exists. |
| Text.SplitAppend | ota_updater.py:21 | Splitting `a + sep + b` splits `a` and `b` independently and concatenates the pieces. |
| Text.SplitWithoutSeparator | main.py:193 | A string without the separator splits into itself alone. |
| Text.Repeat | st7789.py:108-111 | `c * n` has length `n` and every element is `c`. These are the `n // 512` copies of one chunk that `fill` sends, and the padding `rstrip` removes. |
| Text.NatToDecimal | main.py:190 | `str(n)` of a natural number is a non-empty string of decimal digits. |
| Text.DecimalRoundTrip | main.py:193 | `int(str(n)) == n`. |
| Text.Pad2 | main.py:529 | `f"{n:02d}"` for `n < 100` is two digits whose value is `n`. |
| Clock.Civil | main.py:110 | `utime.localtime(t)`: hour, minute, second and weekday are in range and are the remainders of `t` by day, hour and minute. The month is in 1..12 and the day in 1..31, and `mktime` of the date gives back the day `t` falls on, `t // 86400`. The weekday reported is `WeekdayOf` that date. |
| Clock.DaysRoundTrip | main.py:104 | The date `localtime` gives for a day count has a month in 1..12 and a day in 1..31. `mktime` of that date gives the day count back. |
| Clock.EraRoundTrip | main.py:104 | The same within one 400-year era, for each day of the era. |
| Clock.MonthRoundTrip | main.py:104 | The same within one year, for each day of the year counted from 1 March. |
| Clock.EpochAnchor | main.py:110 | Epoch second 0 is Saturday 2000-01-01 00:00:00. |
| Clock.SpringChangeover2024 | main.py:104 | `WeekdayOf` gives Sunday for 2024-03-31, the spring changeover day of 2024. |
| Clock.AutumnChangeover2024 | main.py:104 | `WeekdayOf` gives Sunday for 2024-10-27, the autumn changeover day of 2024. |
| Clock.WeekdayOf | main.py:104 | The weekday of a date, Monday = 0, is in 0..6. `Civil` reports it for its own date, and `EpochAnchor` and the changeover lemmas fix its phase. |
| Clock.LastSundayCorrect | main.py:104 | The formula `31 - (weekday(31st) + 1) % 7` gives a day in 25..31 that is a Sunday, with no later Sunday up to the 31st. |
| Clock.LastSundayUnique | main.py:104 | A month has only one last Sunday. |
| Clock.BstWindow | main.py:100-107 | `is_bst` holds exactly from 01:00 UTC on the last Sunday of March until, but not including, 01:00 UTC on the last Sunday of October. |
| Clock.LocalTime | main.py:109-113 | The local time's fields are in range. |
| Clock.LocalTimeShift | main.py:111-112 | Local time equals UTC with the hour moved forward by exactly one while BST holds, modulo 24. Minutes and seconds are unchanged. Before 23:00 UTC the weekday and the date are unchanged too. |
| Clock.LocalTimeIsClock | main.py:109-113 | Every reading of `get_local_time` is in range, so it is a `LocalClock`. |
| Schedules.SplitTime | main.py:193 | `time.split(':')` of a well-formed "HH:MM" yields exactly the hour digits and the minute digits. |
| Schedules.EventMinutes | main.py:193 | The minute of the day of an "HH:MM" event time is in 0..1439. |
| Schedules.LexLessIsEarlier | main.py:192 | On zero-padded "HH:MM" times, Python string order holds exactly when the first time rings at an earlier minute. |
| Schedules.LexTotal | main.py:192 | String order is total. |
| Schedules.Hhmm | main.py:529 | `f"{h:02d}:{m:02d}"` is a well-formed "HH:MM" time. |
| Schedules.HhmmMatchesMinute | main.py:529-536 | An event's time string equals the current "HH:MM" exactly when its minute of the day is the current one. |
| Schedules.Insert | main.py:192 | Insertion adds exactly the new event to the multiset and keeps times well formed. |
| Schedules.InsertSorted | main.py:192 | Insertion into a time-sorted list keeps it sorted. |
| Schedules.SortByTime | main.py:192 | `sorted(..., key=time)` returns a permutation of the day's events. |
| Schedules.SortByTimeSorted | main.py:192 | The sorted list is in order of the minute each event rings. |
| Schedules.SortByTimeStable | main.py:192 | The sort is stable: the events sharing a time string keep their list order. This decides which of two simultaneous events `find_next_bell` reports. |
| Schedules.DayOf | main.py:190 | `(current_day + i) % 7` is a weekday, 0..6. |
| Schedules.DayKey | main.py:190 | The schedule key of weekday `d` is `str(d)`, one digit. |
| Schedules.DayEvents | main.py:191 | The events under a weekday key have well-formed times. An absent key gives no events. |
| Schedules.FirstUpcomingIsEarliest | main.py:192-195 | The inner scan finds nothing exactly when no event of the day is still to come. Otherwise it returns one that is still to come and no later than any other. |
| Schedules.FirstOnDayIsEarliest | main.py:190-195 | The same for one day `offset` days ahead, looked up by key and sorted. |
| Schedules.SearchFromNone | main.py:189-196 | The day loop from `offset` returns `{}` exactly when no event is still to come on any of those days. |
| Schedules.SearchFromEarliest | main.py:189-195 | A bell the day loop returns is tagged with its day name, is still to come, and rings no later than any other event still to come that week. |
| Schedules.NextBellIsEarliest | main.py:185-196 | `find_next_bell` returns `{}` exactly when no event of the next seven days, from now, is still to come. Otherwise it returns the earliest such event with its day name. |
| Schedules.FirstUpcomingIn | main.py:192-195 | The loop over one day's sorted events computes `FirstUpcoming`. |
| Schedules.FirstOnDayIn | main.py:190-195 | One day of the search computes `FirstOnDay`. |
| Schedules.FindNextBell | main.py:185-196 | The nested loops of `find_next_bell` compute `NextBellAt`, which `NextBellIsEarliest` characterises. |
| Schedules.Due | main.py:535-538 | The activations at a minute are at most one per entry. |
| Schedules.DueAppend | main.py:535-538 | The activations of a list are those of its front followed by those of its back, so entries fire in list order. |
| Schedules.DueMembers | main.py:535-538 | An activation is performed exactly for each entry whose time is the current one and that names a relay. |
| Touch.HitTest | main.py:459-464 | First contact selects setup only when Wi-Fi failed and the point is in its rectangle. It selects sync or holiday only inside theirs, and nothing when outside both. |
| Touch.RectsDisjoint | main.py:36 | The three button rectangles, with their inclusive edges, do not overlap. |
| Touch.HitTestByRegion | main.py:36 | Because of that, the priority order of the hit test never matters: each button is selected exactly when the point is in its rectangle. |
| Touch.StepKeepsInv | main.py:442-479 | Every poll keeps the touch invariant: unlocked means idle, and only a holiday hold can have fired a long press. |
| Touch.WakeOnly | main.py:448-449 | A touch on a dark screen only wakes it and sets the lock. No button is selected. |
| Touch.LockedPressKeepsButton | main.py:452 | While the lock is set, further contact never re-runs the hit test. The held button and its start time stay. |
| Touch.FirstContact | main.py:452-464 | First contact with the screen on selects the button under the finger. Sync and holiday also start their timer. |
| Touch.ReleaseResets | main.py:471-479 | A release never toggles holiday mode and enters setup exactly when setup was held. Otherwise it resets the four touch globals. It syncs exactly when sync was held without a long press. |
| Touch.LongPressOnce | main.py:467-469 | Holding the holiday button toggles holiday mode exactly once if some poll comes more than 2000 ms after the press, and never otherwise. |
| Touch.LongPressDone | main.py:467 | Once the long press has fired, further polls toggle nothing. |
| BellController.Lookup | main.py:248 | `schedules[name]` is the file of an entry with that name, and no later entry has that name, as a parsed JSON object keeps the last of repeated keys. |
| BellController.PlanFetchSpec | main.py:239-249 | The manifest is rejected exactly when it is missing or lacks `schedules` or `base_url`. An accepted one is committed as is. An empty `schedules` raises. The active name is kept when listed, else it is the listed key that `first` (the dict's iteration order) picks. The URL is `base_url` plus that name's file. |
| BellController.EveryEntryChoosable | main.py:244-246 | When the active name is not listed, any entry of the accepted manifest can be the fallback, depending on the dict's key order: the model does not pick one. |
| BellController.Channel | main.py:260 | Relay number 1 drives the first relay and every other number the second. |
| BellController.ActuationsAt | main.py:535-538 | Each activation energises its relay's channel for its duration, one actuation per activation, in order. |
| BellController.ActuationsAppend | main.py:535-538 | The actuations of two runs are those of the first followed by those of the second. |
| BellController.Held | main.py:260 | `utime.sleep(duration)` per activation: with non-negative durations the total time held is non-negative. |
| BellController.HeldAppend | main.py:535-538 | Holding for two runs in turn takes the sum of their times. |
| BellController.MarkOffSpec | main.py:260 | After activations, every relay they name reads OFF. The status table gains exactly those keys, and other entries are unchanged. |
| BellController.MarkOffAppend | main.py:535-538 | Marking two runs off is marking off the first, then the second. |
| BellController.RangCompose | main.py:535-538 | Ringing one run of entries and then another under the same schedule is ringing both in order: times, actuations, relay statuses and the last next-bell recomputation compose. |
| BellController.HolidayRoundTrip | main.py:87-97 | The holiday file reads back as the status written, even with blank padding. |
| BellController.ActiveNameRoundTrip | main.py:61-69 | A name without surrounding blanks survives being saved to and read back from the active-schedule file. |
| BellController.UptimeOf | main.py:182-183 | Hours are below 24 and minutes and seconds below 60. Days, hours, minutes and seconds add back up to the elapsed whole seconds. |
| BellController.DayClock | main.py:183 | The nested remainders of `get_uptime_str` are in range and recombine to the total. |
| BellController.Advance | main.py:143 | The shift direction is always one of the four. |
| BellController.ShiftCycle | main.py:143-144 | Every offset is 0 or 1 on each axis. Four steps visit four different offsets and return to the start. |
| BellController.Device.constructor | main.py:21-38 | The globals' initial values, over the given flash files, clock and dict key order. |
| BellController.Device.WakeDisplay | main.py:128-131 | The screen is on afterwards if it was on or there is a backlight. The activity time is now. |
| BellController.Device.UpdateDisplay | main.py:147-150 | With a display present, a redraw wakes the screen. Without one, nothing changes. |
| BellController.Device.ManageDisplayPower | main.py:133-136 | The screen goes dark exactly when it was on, there is a backlight and more than 300 s passed since the last activity. The invariant is kept. |
| BellController.Device.ManagePixelShift | main.py:138-145 | With the screen on and more than 60 s since the last shift, the direction advances by one and the offset is the one for that direction. Otherwise nothing changes. The invariant is kept. |
| BellController.Device.SaveHoliday | main.py:87-91 | Holiday mode and the file both hold the new status. |
| BellController.Device.LoadHoliday | main.py:93-97 | The stripped file decides ("1" is on). A missing file is created holding "0", with holiday off. |
| BellController.Device.SaveActiveName | main.py:66-71 | The active name and its file both hold the name. |
| BellController.Device.LoadActiveName | main.py:58-64 | The stripped file contents, or the name already held when there is no file. |
| BellController.Device.SaveCache | main.py:74-78 | The cache file holds the schedule. |
| BellController.Device.LoadCache | main.py:80-85 | The cached schedule with its next bell, or the empty schedule when there is no cache. |
| BellController.Device.RecomputeNextBell | main.py:185-196 | The next bell is `NextBellAt` for the device's schedule. |
| BellController.Device.AdoptManifest | main.py:237-250 | Follows `PlanFetch`. The manifest changes only when accepted. The active name changes only to the planned name (a listed key: the current one, or `firstKey`'s pick), and its file is written exactly when the name changed. |
| BellController.Device.Fetch | main.py:235-257 | Follows `PlanFetch`. The manifest, active name and its file change as planned. The fetch is invalid, raises or succeeds exactly as the plan and the download decide. On success the schedule is the download, cached, with its next bell at `clock(t)`. Otherwise schedule, cache and next bell are unchanged. The screen is redrawn. |
| BellController.Device.AdoptSchedule | main.py:252-257 | A truthy download replaces the schedule, is cached and gets its next bell. Anything else changes none of the three. |
| BellController.Device.SetScheduleAction | main.py:333-338 | A fetch runs exactly when the current manifest lists the name, and the message says which. No message comes back when the fetch raises: the exception goes up to the request handler. When a fetch runs, the name is saved first and the new state is the `PlanFetch` outcome from that name. An unknown name changes no state at all. |
| BellController.Device.PostSetSchedule | main.py:319-328 | The posted name is saved unchecked. The new state is the `PlanFetch` outcome from that name: kept if the manifest lists it, else replaced by the key the dict yields first (`firstKey`). |
| BellController.Device.ActivateRelay | main.py:259-260 | One actuation of the relay's channel for the duration is appended, and the relay's status ends OFF. |
| BellController.Device.CheckMinute | main.py:524-538 | Runs exactly once per new minute value, not when Wi-Fi failed and not in holiday mode, and records the minute. When it runs, the resync and the ringing happen as `RingBells` states. Otherwise no fetch or relay state changes and the clock has not moved. |
| BellController.Device.MinuteEdge | main.py:524-527 | The trigger fires exactly on a new minute value with Wi-Fi up, and the new minute is recorded. No fetch or relay state changes. |
| BellController.Device.RingBells | main.py:529-538 | The 07:30 resync runs exactly when the clock sync succeeds and changes the state as `PlanFetch` decides. Unless it raised, the actuations and relay statuses are those of `Due` on today's events, rung in turn until `finish`. The next bell is found at the clock after the last hold, or stays as the resync left it. |
| BellController.Device.MorningResync | main.py:529-531 | At 07:30 the display is redrawn, and a fetch follows exactly when NTP succeeded, with the state changes `PlanFetch` and the download decide. At any other time nothing changes. |
| BellController.Device.FireToday | main.py:533-538 | The actuations and statuses are those of `Due` on today's events, held one after the other. The next bell is found at the clock after the last hold, and is unchanged when nothing fired. |
| BellController.Device.FireEntry | main.py:536-538 | One entry fires exactly when `Due` says so. Then its actuation is appended, its relay reads OFF, and the next bell is found at the clock once the relay is released. Otherwise only the screen may change. |
| BellController.Device.FireDue | main.py:535-538 | The loop over today's entries performs `Due`'s activations in order, each starting when the previous hold ends, with the next bell from the clock after the last. |
| BellController.Device.FireNext | main.py:535-538 | One turn of that loop extends the run so far by the next entry: it fires from the second the previous hold ended, exactly when `Due` says so. |
| BellController.Device.HandleTouch | main.py:442-479 | One poll follows `Touch.Step`: touch globals, holiday toggle and its file, setup entry and wake. The sync fetch runs exactly when the step asks for it, with the `PlanFetch` outcome. Without it no fetch state changes. It keeps the invariant and does nothing without a touch panel. |
| BellController.Device.TouchDown | main.py:451-469 | Contact with the screen on follows `Touch.Press`. A long press flips holiday mode and writes the new status to its file. Otherwise the file is unchanged. |
| BellController.Device.SyncNow | main.py:474-476 | The sync button redraws, then fetches, with the state changes `PlanFetch` and the download decide. |
| BellController.Device.TouchUp | main.py:471-479 | A release follows `Touch.Release`: setup entry, and the sync fetch exactly when asked, with the `PlanFetch` outcome. The touch globals are reset unless the fetch raised. Without a fetch no fetch state changes. |
| BellController.Device.ReleaseSync | main.py:473-476 | The sync action runs exactly when sync was held without a long press, with the `PlanFetch` outcome. Otherwise nothing changes. |
| BellController.Device.ResetTouch | main.py:478-479 | The four touch globals go back to idle, with a redraw exactly when the lock was set. No fetch or relay state changes. |
| Ota.NewUpdaterDefined | ota_updater.py:15-23 | Construction succeeds exactly when a '/' is left after stripping trailing slashes. It stores the stripped URL, the file list and ".version". |
| Ota.GitHubUrls | ota_updater.py:15-23 | For `host/owner/repo` plus any number of slashes, the API and raw URLs name exactly that owner and repository. |
| Ota.CheckForUpdatesCases | ota_updater.py:39-69 | Without a version file, a remote version means an update. A version file holding the remote version, even padded, means up to date. |
| Ota.FirstFailure | ota_updater.py:80-92 | The index of the first file that does not download: every earlier one downloads. |
| Ota.InstallSpec | ota_updater.py:79-92 | The loop succeeds exactly when every file downloads. Files before the first failure hold the downloaded text. Every other file is untouched, with no rollback. |
| Ota.Flash.Write | ota_updater.py:86-87 | Writing a file replaces its contents and nothing else. |
| Ota.DownloadAndInstallUpdates | ota_updater.py:71-101 | Without a remote version nothing is written. Otherwise the files are installed in order, and the version file is written, last, exactly when all succeeded. |
| Ota.UpToDateAfterInstall | ota_updater.py:47-69 | After a successful install, checking again against the same remote version finds nothing new. |
| St7789.PacketsAppend | st7789.py:46-56 | The panel reads a concatenated log piece by piece, from the line levels the first piece leaves. |
| St7789.Be16 | st7789.py:96 | `to_bytes(2, 'big')` gives two bytes whose big-endian value is the number. |
| St7789.Be16RoundTrip | st7789.py:96 | Two-byte big-endian encoding and decoding are inverse. |
| St7789.Rotation | st7789.py:87-92 | Rotations 0..3 give 0x00, 0x60, 0xC0 and 0xA0, and any other value gives 0x00. The row/column exchange bit is set exactly for odd rotations. |
| St7789.Pixels | st7789.py:105-106 | `color_bytes * n` has `2 * n` bytes. |
| St7789.PixelsAt | st7789.py:105-106 | Every pixel of the buffer is the colour, high byte first. |
| St7789.PixelsAdd | st7789.py:104-114 | `a` pixels followed by `b` pixels are `a + b` pixels. |
| St7789.PixelsSplit | st7789.py:104-112 | The whole chunks and the remainder make up the `n` pixels. |
| St7789.FillPayload | st7789.py:102-114 | The transfers of `fill` carry exactly `width * height` pixels of the colour, `2 * width * height` bytes. |
| St7789.FillTransfers | st7789.py:103-114 | `fill` sends `n // 512` chunks, plus one more exactly when `n % 512 > 0`. All are data, none longer than 1024 bytes. |
| St7789.TextWidthAppend | st7789.py:124-125 | `width` of a concatenation is the sum of the widths. |
| St7789.Placed | st7789.py:119-122 | `write` draws one glyph per character of the text. |
| St7789.PlacedAt | st7789.py:119-122 | Character `i` is drawn, in text order, at `x` plus the width of the text before it. |
| St7789.PenAdvance | st7789.py:120-122 | Each glyph starts where the previous one's width ends. |
| St7789.ST7789.constructor | st7789.py:36-44 | Stores width, height and rotation. Nothing is on the bus yet. |
| St7789.ST7789.Emit | st7789.py:47-50 | One signal is appended. The panel latches it exactly when it is an SPI write with chip select low. |
| St7789.ST7789.WriteCmd | st7789.py:46-50 | Whatever the lines were, the panel receives exactly one command transfer of the byte, and chip select ends high. |
| St7789.ST7789.WriteData | st7789.py:52-56 | Whatever the lines were, the panel receives exactly one data transfer of the bytes, and chip select ends high. |
| St7789.ST7789.Quiet | st7789.py:59-64 | A reset level or a pause hands the panel nothing and leaves chip select and data/command as they were. |
| St7789.ST7789.Init | st7789.py:58-85 | The panel receives, in order: SLPOUT, COLMOD 0x55, MADCTL with the rotation byte, CASET 0..width, RASET 0..height, NORON, DISPON. Chip select ends high. |
| St7789.ST7789.Wake | st7789.py:59-67 | The reset pulse, then SLPOUT as the only transfer. |
| St7789.ST7789.Configure | st7789.py:69-79 | Colour mode, rotation, then the column and row ranges. |
| St7789.ST7789.Format | st7789.py:69-73 | COLMOD 0x55, then MADCTL with the rotation byte. |
| St7789.ST7789.Extent | st7789.py:75-79 | CASET and RASET with the start 0 and the end `width` or `height`, each as two big-endian bytes. |
| St7789.ST7789.Enable | st7789.py:81-85 | NORON, then DISPON. Chip select ends high. |
| St7789.ST7789.SetWindow | st7789.py:94-99 | CASET with `x, x+w-1`, RASET with `y, y+h-1`, each as two big-endian bytes, then RAMWR. |
| St7789.ST7789.Fill | st7789.py:101-115 | The full-screen window, then the transfers `FillPayload` and `FillTransfers` describe. Chip select ends high. |
| St7789.ST7789.Stream | st7789.py:103-115 | The pixel transfers of `fill` under one chip select with data/command high. |
| St7789.ST7789.Chunks | st7789.py:108-111 | `chunks` data transfers of the same buffer. |
| St7789.ST7789.Remainder | st7789.py:112-114 | One more data transfer of the remaining pixels exactly when some remain. |
| St7789.RenderChar | st7789.py:121 | One glyph is drawn. |
| St7789.Write | st7789.py:119-122 | `write` draws exactly the glyphs `Placed` describes, appended in text order. |

## Left out

- Network, NTP, Wi-Fi, sockets and TLS are left out. Their outcomes are parameters: the manifest document, the schedule download function, `ntpOk`, the GitHub response function, the touch position.
- Drawing is left out: fonts, colours, `fill_rect` and the status lines. `update_display` is modelled only by its wake of the screen. `font.width` is an abstract function `char -> nat`, and `font.render_char` appends a glyph record.
- The web server is left out: the request parsing, the HTML pages, `perform_ota_update`'s screen messages and the reboot. Its actions are modelled as the methods they call: `SetScheduleAction`, `PostSetSchedule`, `ActivateRelay`, `SaveHoliday` and `Fetch`.
- `run_setup_mode` (the Wi-Fi setup portal) never returns. Entering it is the flag `setupMode`, and nothing after it is modelled.
- The boot sequence and the main loop's Wi-Fi and RSSI checks are left out. The watchdog and the LED toggle are left out too.
- `sync_time`'s effect on the clock is left out: the clock is a parameter, and the UTC second is an argument of each call.
- BellController.Device.UpdateDisplay: the model assumes a display driver that provides `fill_rect`, as the upstream driver named at st7789.py:2 does. The shipped `st7789.py` class defines only `_write_cmd`, `_write_data`, `init`, `_rotation`, `_set_window` and `fill`. Against that file, with a display attached, `update_display` raises `AttributeError` at main.py:156 or main.py:165, outside any `try`. It would then stop the boot (main.py:489-493), `activate_relay` before the relay is energised (main.py:260), and `fetch_manifest_and_schedule` before the download (main.py:237). The touch handler's `fill_rect` calls (main.py:465 and 476) would raise the same way, the second one before `sync_time`. The model's `UpdateDisplay` returns normally, and `Fetch`, `ActivateRelay`, `SyncNow`, `MinuteEdge` and `MorningResync` carry on after it.
- BellController.Device.RingBells: only relay holds move the clock on in the model. The 07:30 resync's `sync_time` (up to three NTP attempts with 3 s sleeps, main.py:216-223) and its two downloads (10 s socket timeout, main.py:227) also take time before the first bell fires and before `find_next_bell` reads the clock again. `FireToday` starts from the `t` of the minute check.
- `find_next_bell` calls `get_local_time()` three times. The model reads one `now` for all three, so a second boundary crossing between them is not modelled.
- The schedule is a map from weekday key to events, and the model takes every event time to be a zero-padded "HH:MM" in range (`Schedules.WellFormedSchedule`). The code is more lenient. `find_next_bell` raises in some cases, for example on a time without ':', on parts that are not integers, on an event without a `"time"` key (`KeyError`) or on a time that is not a string (`AttributeError`). But it accepts others, so "8:30", "25:00" and "08:30:00" are accepted without error. On such strings the string sort no longer follows the minute of the day, and the trigger's comparison with the zero-padded clock text never matches. Schedules holding them are not modelled.
- `find_next_bell` stores the found event object itself and adds `day_name` to it, so the schedule entry is modified in place. The model returns a copy tagged with the day name.
- `relay_status` is keyed by the relay number as an integer. The code uses its string form.
- Tick counts are unbounded integers. `ticks_diff` wrap-around is not modelled.
- Failures to write flash files, which the code catches and prints, are left out. Every write succeeds.
- The GitHub API is a function of the URL. The two remote-version requests of `check_for_updates` and `download_and_install_updates` therefore always agree.
- Ota.DownloadAndInstallUpdates: the `except` around the whole install loop is modelled only for failed downloads, which return False. An exception while writing a file is not modelled.
- `to_bytes(2, 'big')` raises `OverflowError` outside 0..65535. The ST7789 methods require their coordinates and colour to be in that range instead of modelling the exception.
- The XPT2046 touch driver is not part of this model. Its reading is the `Option<Point>` parameter.
