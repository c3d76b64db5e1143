/** Bell events and schedules as the controller reads them from the schedule
    documents, the "HH:MM" time strings, the next-bell search (`find_next_bell`)
    and the list of relay activations due at a given minute. */
module Schedules {
  import opened Wrappers
  import opened Text
  import Clock
  import Config

  const DAYS_OF_WEEK := ["Mon", "Tue", "Wed", "Thu", "Fri", "Sat", "Sun"]
  const MINUTES_PER_DAY := 1440

  /** One entry of a day's list: `{"time", "bellname", "relay", "belllength"}`. */
  datatype BellEvent = BellEvent(time: string, bellName: Option<string>,
                                 relay: Option<int>, bellLength: Option<int>)

  /** A zero-padded "HH:MM" time of day. */
  predicate WellFormedTime(t: string) {
    |t| == 5 && IsDigit(t[0]) && IsDigit(t[1]) && t[2] == ':' && IsDigit(t[3]) && IsDigit(t[4]) &&
    DigitValue(t[0]) * 10 + DigitValue(t[1]) < 24 && DigitValue(t[3]) * 10 + DigitValue(t[4]) < 60
  }

  predicate AllWellFormed(events: seq<BellEvent>) {
    forall i :: 0 <= i < |events| ==> WellFormedTime(events[i].time)
  }

  predicate WellFormedSchedule(m: map<string, seq<BellEvent>>) {
    forall k :: k in m ==> AllWellFormed(m[k])
  }

  /** A schedule document: weekday key "0".."6" to that day's events, every
      time written "HH:MM". */
  type Schedule = m: map<string, seq<BellEvent>> | WellFormedSchedule(m) witness map[]

  /** The result of `find_next_bell`: the event tagged with its day name, or `{}`. */
  datatype NextBell = NoBell | Bell(event: BellEvent, dayName: string)

  /** A relay activation: relay number and seconds energised. */
  datatype Firing = Firing(relay: int, seconds: int)

  // ---------------------------------------------------------------------------
  // Times of day

  /** `t.split(':')` of an "HH:MM" string is `[HH, MM]`. */
  lemma SplitTime(t: string)
    requires WellFormedTime(t)
    ensures Split(t, ':') == [t[..2], t[3..]]
  {
    var mm := t[3..];
    SplitWithoutSeparator(mm, ':');
    assert t[2..][1..] == mm;
    var rest2 := Split(t[2..], ':');
    assert rest2 == ["", mm];
    assert t[1..][1..] == t[2..];
    var rest1 := Split(t[1..], ':');
    assert t[1..][0] == t[1] && t[1] != ':';
    assert rest1 == [[t[1]] + rest2[0]] + rest2[1..];
    assert rest2[0] == [] && rest2[1..] == [mm];
    assert [t[1]] + rest2[0] == [t[1]];
    assert rest1 == [[t[1]], mm];
    assert t[..2] == [t[0]] + rest1[0];
  }

  lemma TwoDigits(s: string)
    requires |s| == 2 && IsDigit(s[0]) && IsDigit(s[1])
    ensures DecimalValue(s) == DigitValue(s[0]) * 10 + DigitValue(s[1])
  {
    var s1 := s[..1];
    assert s1 == [s[0]] && s[..|s| - 1] == s1;
    assert s1[..0] == [];
    assert DecimalValue(s1) == DecimalValue(s1[..0]) * 10 + DigitValue(s[0]);
    assert DecimalValue(s) == DecimalValue(s1) * 10 + DigitValue(s[1]);
  }

  /** `int(t[0]) * 60 + int(t[1])` with `t = time.split(':')`: the minute of
      the day an event rings. */
  function EventMinutes(time: string): (m: int)
    requires WellFormedTime(time)
    ensures 0 <= m < MINUTES_PER_DAY
  {
    EventMinutesDigits(time);
    var parts := Split(time, ':');
    DecimalValue(parts[0]) * 60 + DecimalValue(parts[1])
  }

  /** The minute of the day is read off the four digits of "HH:MM". */
  lemma EventMinutesDigits(time: string)
    requires WellFormedTime(time)
    ensures Split(time, ':') == [time[..2], time[3..]]
    ensures DecimalValue(time[..2]) == DigitValue(time[0]) * 10 + DigitValue(time[1])
    ensures DecimalValue(time[3..]) == DigitValue(time[3]) * 10 + DigitValue(time[4])
  {
    SplitTime(time);
    TwoDigits(time[..2]);
    TwoDigits(time[3..]);
  }

  /** Python's `a < b` on strings: code-point lexicographic order. */
  predicate LexLess(a: string, b: string) {
    b != [] && (a == [] || a[0] < b[0] || (a[0] == b[0] && LexLess(a[1..], b[1..])))
  }

  /** No string is less than itself. */
  lemma LexLessIrreflexive(a: string)
    ensures !LexLess(a, a)
  {
  }

  /** String order on two "HH:MM" strings compares the four digits in turn. */
  lemma LexLessTimes(a: string, b: string)
    requires |a| == 5 && |b| == 5 && a[2] == ':' && b[2] == ':'
    ensures LexLess(a, b) <==>
            a[0] < b[0] || (a[0] == b[0] && (a[1] < b[1] || (a[1] == b[1] &&
            (a[3] < b[3] || (a[3] == b[3] && a[4] < b[4])))))
  {
    var a1, b1 := a[1..], b[1..];
    var a2, b2 := a1[1..], b1[1..];
    var a3, b3 := a2[1..], b2[1..];
    var a4, b4 := a3[1..], b3[1..];
    assert a4[1..] == [] && b4[1..] == [];
    assert LexLess(a4, b4) <==> a[4] < b[4];
    assert LexLess(a3, b3) <==> a[3] < b[3] || (a[3] == b[3] && a[4] < b[4]);
    assert LexLess(a2, b2) <==> a[3] < b[3] || (a[3] == b[3] && a[4] < b[4]);
  }

  /** Because times are zero-padded and minutes stay below 60, sorting the
      time strings sorts the events chronologically. */
  lemma LexLessIsEarlier(a: string, b: string)
    requires WellFormedTime(a) && WellFormedTime(b)
    ensures LexLess(a, b) <==> EventMinutes(a) < EventMinutes(b)
  {
    EventMinutesDigits(a);
    EventMinutesDigits(b);
    LexLessTimes(a, b);
    var ha, hb := DigitValue(a[0]) * 10 + DigitValue(a[1]), DigitValue(b[0]) * 10 + DigitValue(b[1]);
    var ma, mb := DigitValue(a[3]) * 10 + DigitValue(a[4]), DigitValue(b[3]) * 10 + DigitValue(b[4]);
    assert EventMinutes(a) == ha * 60 + ma && EventMinutes(b) == hb * 60 + mb;
    assert ha < hb <==> a[0] < b[0] || (a[0] == b[0] && a[1] < b[1]);
    assert ma < mb <==> a[3] < b[3] || (a[3] == b[3] && a[4] < b[4]);
  }

  /** The time `f"{h:02d}:{m:02d}"` the trigger compares event times with. */
  function Hhmm(hour: int, minute: int): (t: string)
    requires 0 <= hour < 24 && 0 <= minute < 60
    ensures WellFormedTime(t)
  {
    Pad2(hour) + ":" + Pad2(minute)
  }

  /** An event's time equals the current "HH:MM" exactly when the event rings
      at the current minute of the day. */
  lemma HhmmMatchesMinute(time: string, hour: int, minute: int)
    requires WellFormedTime(time) && 0 <= hour < 24 && 0 <= minute < 60
    ensures time == Hhmm(hour, minute) <==> EventMinutes(time) == hour * 60 + minute
  {
    var t := Hhmm(hour, minute);
    EventMinutesDigits(t);
    assert EventMinutes(t) == hour * 60 + minute;
    if EventMinutes(time) == hour * 60 + minute {
      LexLessIsEarlier(time, t);
      LexLessIsEarlier(t, time);
      LexTotal(time, t);
    }
  }

  /** Python's string order is total. */
  lemma {:induction false} LexTotal(a: string, b: string)
    ensures a == b || LexLess(a, b) || LexLess(b, a)
  {
    if a != [] && b != [] && a[0] == b[0] {
      LexTotal(a[1..], b[1..]);
      if a[1..] == b[1..] {
        assert a == [a[0]] + a[1..] && b == [b[0]] + b[1..];
      }
    }
  }

  // ---------------------------------------------------------------------------
  // `sorted(events, key=lambda x: x.get('time', ''))`

  ghost predicate SortedByTime(events: seq<BellEvent>)
    requires AllWellFormed(events)
  {
    forall i, j :: 0 <= i < j < |events| ==> EventMinutes(events[i].time) <= EventMinutes(events[j].time)
  }

  /** Inserts `x` before the first element whose time is not less than its own,
      so that equal times keep their list order. */
  function Insert(x: BellEvent, sorted: seq<BellEvent>): (r: seq<BellEvent>)
    ensures multiset(r) == multiset(sorted) + multiset{x}
    ensures WellFormedTime(x.time) && AllWellFormed(sorted) ==> AllWellFormed(r)
  {
    if sorted == [] then [x]
    else if LexLess(sorted[0].time, x.time) then
      var rest := Insert(x, sorted[1..]);
      assert sorted == [sorted[0]] + sorted[1..];
      AllWellFormedCons(sorted[0], sorted[1..]);
      AllWellFormedCons(sorted[0], rest);
      assert multiset([sorted[0]] + rest) == multiset{sorted[0]} + multiset(rest);
      [sorted[0]] + rest
    else
      AllWellFormedCons(x, sorted);
      [x] + sorted
  }

  lemma AllWellFormedCons(head: BellEvent, rest: seq<BellEvent>)
    ensures AllWellFormed([head] + rest) <==> WellFormedTime(head.time) && AllWellFormed(rest)
  {
    var r := [head] + rest;
    if WellFormedTime(head.time) && AllWellFormed(rest) {
      forall i | 0 <= i < |r| ensures WellFormedTime(r[i].time) {
        if i > 0 {
          assert r[i] == rest[i - 1];
        }
      }
    }
    if AllWellFormed(r) {
      assert r[0] == head;
      forall i | 0 <= i < |rest| ensures WellFormedTime(rest[i].time) {
        assert rest[i] == r[i + 1];
      }
    }
  }

  lemma SortedCons(head: BellEvent, rest: seq<BellEvent>)
    requires WellFormedTime(head.time) && AllWellFormed(rest) && SortedByTime(rest)
    requires forall i :: 0 <= i < |rest| ==> EventMinutes(head.time) <= EventMinutes(rest[i].time)
    ensures AllWellFormed([head] + rest) && SortedByTime([head] + rest)
  {
    var r := [head] + rest;
    forall i, j | 0 <= i < j < |r| ensures EventMinutes(r[i].time) <= EventMinutes(r[j].time) {
      assert r[j] == rest[j - 1];
      if i > 0 {
        assert r[i] == rest[i - 1];
      }
    }
  }

  lemma {:induction false} InsertSorted(x: BellEvent, sorted: seq<BellEvent>)
    requires WellFormedTime(x.time) && AllWellFormed(sorted) && SortedByTime(sorted)
    ensures AllWellFormed(Insert(x, sorted)) && SortedByTime(Insert(x, sorted))
    decreases |sorted|, 1
  {
    if sorted != [] {
      if LexLess(sorted[0].time, x.time) {
        InsertSortedAfterHead(x, sorted);
      } else {
        LexLessIsEarlier(sorted[0].time, x.time);
        SortedCons(x, sorted);
      }
    }
  }

  lemma {:induction false} InsertSortedAfterHead(x: BellEvent, sorted: seq<BellEvent>)
    requires WellFormedTime(x.time) && AllWellFormed(sorted) && SortedByTime(sorted)
    requires sorted != [] && LexLess(sorted[0].time, x.time)
    ensures Insert(x, sorted) == [sorted[0]] + Insert(x, sorted[1..])
    ensures AllWellFormed(Insert(x, sorted)) && SortedByTime(Insert(x, sorted))
    decreases |sorted|, 0
  {
    var head, tail := sorted[0], sorted[1..];
    LexLessIsEarlier(head.time, x.time);
    var rest := Insert(x, tail);
    InsertSorted(x, tail);
    forall i | 0 <= i < |rest| ensures EventMinutes(head.time) <= EventMinutes(rest[i].time) {
      var e := rest[i];
      assert e in multiset(rest);
      if e != x {
        assert e in tail;
        var j :| 0 <= j < |tail| && tail[j] == e;
        assert sorted[j + 1] == e;
      }
    }
    SortedCons(head, rest);
  }

  /** Python's stable `sorted` by the "HH:MM" key. */
  function SortByTime(events: seq<BellEvent>): (r: seq<BellEvent>)
    ensures multiset(r) == multiset(events)
    ensures AllWellFormed(events) ==> AllWellFormed(r)
  {
    if events == [] then []
    else
      assert events == [events[0]] + events[1..];
      Insert(events[0], SortByTime(events[1..]))
  }

  /** Sorting by the time string orders the events by the minute they ring. */
  lemma {:induction false} SortByTimeSorted(events: seq<BellEvent>)
    requires AllWellFormed(events)
    ensures AllWellFormed(SortByTime(events)) && SortedByTime(SortByTime(events))
  {
    if events != [] {
      SortByTimeSorted(events[1..]);
      InsertSorted(events[0], SortByTime(events[1..]));
    }
  }

  /** The events whose time string is `k`, in list order. */
  function WithTime(events: seq<BellEvent>, k: string): (r: seq<BellEvent>)
    ensures forall e :: e in r ==> e in events && e.time == k
  {
    if events == [] then []
    else (if events[0].time == k then [events[0]] else []) + WithTime(events[1..], k)
  }

  lemma WithTimeCons(a: BellEvent, events: seq<BellEvent>, k: string)
    ensures WithTime([a] + events, k) == (if a.time == k then [a] else []) + WithTime(events, k)
  {
    assert ([a] + events)[1..] == events;
  }

  /** Insertion goes in front of every event with the same time string. */
  lemma {:induction false} InsertBeforeTies(x: BellEvent, sorted: seq<BellEvent>, k: string)
    ensures WithTime(Insert(x, sorted), k) == (if x.time == k then [x] else []) + WithTime(sorted, k)
    decreases |sorted|
  {
    if sorted == [] {
      WithTimeCons(x, [], k);
    } else if LexLess(sorted[0].time, x.time) {
      var head, tail := sorted[0], sorted[1..];
      var ties := if x.time == k then [x] else [];
      var h := if head.time == k then [head] else [];
      LexLessIrreflexive(x.time);
      assert x.time == k ==> h == [];
      calc {
        WithTime(Insert(x, sorted), k);
        WithTime([head] + Insert(x, tail), k);
        { WithTimeCons(head, Insert(x, tail), k); }
        h + WithTime(Insert(x, tail), k);
        { InsertBeforeTies(x, tail, k); }
        h + (ties + WithTime(tail, k));
        ties + (h + WithTime(tail, k));
        { WithTimeCons(head, tail, k); assert [head] + tail == sorted; }
        ties + WithTime(sorted, k);
      }
    } else {
      WithTimeCons(x, sorted, k);
    }
  }

  /** `sorted` is stable: for every time string, the events with that time
      keep their relative order, which decides which of two simultaneous
      events `find_next_bell` reports. */
  lemma {:induction false} SortByTimeStable(events: seq<BellEvent>, k: string)
    ensures WithTime(SortByTime(events), k) == WithTime(events, k)
  {
    if events != [] {
      SortByTimeStable(events[1..], k);
      InsertBeforeTies(events[0], SortByTime(events[1..]), k);
    }
  }

  // ---------------------------------------------------------------------------
  // Next-bell resolution

  /** `str(day)`: the schedule key of weekday `day`. */
  function DayKey(day: nat): (k: string)
    requires day < 7
    ensures k == [DigitChar(day)]
  {
    NatToDecimal(day)
  }

  function DayOf(today: nat, offset: nat): (d: nat)
    ensures d < 7
  {
    (today + offset) % 7
  }

  /** The events of weekday `day`, none when the key is absent. */
  function DayEvents(s: Schedule, day: nat): (events: seq<BellEvent>)
    requires day < 7
    ensures AllWellFormed(events)
  {
    if DayKey(day) in s then s[DayKey(day)] else []
  }

  /** Whether an event `offset` days ahead is still to come: today only the
      events after the current minute count. */
  predicate Upcoming(e: BellEvent, offset: nat, nowMinutes: int)
    requires WellFormedTime(e.time)
  {
    offset != 0 || EventMinutes(e.time) > nowMinutes
  }

  function FirstUpcoming(events: seq<BellEvent>, offset: nat, nowMinutes: int): Option<BellEvent>
    requires AllWellFormed(events)
  {
    if events == [] then None
    else if Upcoming(events[0], offset, nowMinutes) then Some(events[0])
    else FirstUpcoming(events[1..], offset, nowMinutes)
  }

  /** The search over day offsets `offset` .. 6. */
  function SearchFrom(s: Schedule, today: nat, nowMinutes: int, offset: nat): NextBell
    requires offset <= 7
    decreases 7 - offset
  {
    if offset == 7 then NoBell
    else
      var found := FirstOnDay(s, today, nowMinutes, offset);
      if found.Some? then Bell(found.value, DAYS_OF_WEEK[DayOf(today, offset)])
      else SearchFrom(s, today, nowMinutes, offset + 1)
  }

  /** The first upcoming event, by time, of the day `offset` days ahead. */
  function FirstOnDay(s: Schedule, today: nat, nowMinutes: int, offset: nat): Option<BellEvent> {
    var events := DayEvents(s, DayOf(today, offset));
    if events != [] then FirstUpcoming(SortByTime(events), offset, nowMinutes) else None
  }

  /** The minute of the day of local time `now`. */
  function NowMinutes(now: Clock.DateTime): int {
    now.hour * 60 + now.minute
  }

  /** What `find_next_bell` computes for schedule `s` at local time `now`. */
  function NextBellAt(s: Schedule, now: Clock.DateTime): NextBell
    requires 0 <= now.weekday < 7
  {
    if |s| == 0 then NoBell
    else SearchFrom(s, now.weekday, NowMinutes(now), 0)
  }

  /** How far ahead, in minutes from the start of today, an event `offset`
      days ahead rings. */
  function MinutesAhead(e: BellEvent, offset: nat): int
    requires WellFormedTime(e.time)
  {
    offset * 1440 + EventMinutes(e.time)
  }

  /** `e` rings `offset` days ahead (offset 0..6) and is still to come. */
  ghost predicate Candidate(s: Schedule, today: nat, nowMinutes: int, offset: nat, e: BellEvent) {
    offset < 7 && e in DayEvents(s, DayOf(today, offset)) && Upcoming(e, offset, nowMinutes)
  }

  lemma {:induction false} FirstUpcomingIsEarliest(events: seq<BellEvent>, offset: nat, nowMinutes: int)
    requires AllWellFormed(events) && SortedByTime(events)
    ensures FirstUpcoming(events, offset, nowMinutes).None? <==>
            forall e :: e in events ==> !Upcoming(e, offset, nowMinutes)
    ensures FirstUpcoming(events, offset, nowMinutes).Some? ==>
            var f := FirstUpcoming(events, offset, nowMinutes).value;
            f in events && Upcoming(f, offset, nowMinutes) &&
            forall e :: e in events && Upcoming(e, offset, nowMinutes) ==>
              EventMinutes(f.time) <= EventMinutes(e.time)
  {
    if events != [] && !Upcoming(events[0], offset, nowMinutes) {
      FirstUpcomingIsEarliest(events[1..], offset, nowMinutes);
      assert events == [events[0]] + events[1..];
    } else if events != [] {
      forall e | e in events ensures EventMinutes(events[0].time) <= EventMinutes(e.time) {
        var j :| 0 <= j < |events| && events[j] == e;
      }
    }
  }

  lemma FirstOnDayIsEarliest(s: Schedule, today: nat, nowMinutes: int, offset: nat)
    requires offset < 7
    ensures FirstOnDay(s, today, nowMinutes, offset).None? <==>
            forall e :: Candidate(s, today, nowMinutes, offset, e) ==> false
    ensures FirstOnDay(s, today, nowMinutes, offset).Some? ==>
            var f := FirstOnDay(s, today, nowMinutes, offset).value;
            Candidate(s, today, nowMinutes, offset, f) &&
            forall e :: Candidate(s, today, nowMinutes, offset, e) ==> EventMinutes(f.time) <= EventMinutes(e.time)
  {
    var events := DayEvents(s, DayOf(today, offset));
    var sorted := SortByTime(events);
    SortByTimeSorted(events);
    FirstUpcomingIsEarliest(sorted, offset, nowMinutes);
    assert forall e :: e in sorted <==> e in events by {
      assert forall e :: e in sorted <==> e in multiset(sorted);
    }
    if FirstOnDay(s, today, nowMinutes, offset).None? {
      forall e | Candidate(s, today, nowMinutes, offset, e) ensures false {
      }
    } else {
      assert events != [];
      var f := FirstOnDay(s, today, nowMinutes, offset).value;
      assert f in sorted;
      assert Candidate(s, today, nowMinutes, offset, f);
    }
  }

  /** No event is still to come on any of the days `offset` .. 6 ahead. */
  ghost predicate NoCandidateFrom(s: Schedule, today: nat, nowMinutes: int, offset: nat) {
    forall k, e :: offset <= k && Candidate(s, today, nowMinutes, k, e) ==> false
  }

  lemma {:induction false} SearchFromNone(s: Schedule, today: nat, nowMinutes: int, offset: nat)
    requires offset <= 7
    ensures SearchFrom(s, today, nowMinutes, offset) == NoBell <==> NoCandidateFrom(s, today, nowMinutes, offset)
    decreases 7 - offset
  {
    if offset == 7 {
      forall k, e | offset <= k && Candidate(s, today, nowMinutes, k, e) ensures false {
      }
    } else {
      FirstOnDayIsEarliest(s, today, nowMinutes, offset);
      SearchFromNone(s, today, nowMinutes, offset + 1);
      var found := FirstOnDay(s, today, nowMinutes, offset);
      if found.Some? {
        assert SearchFrom(s, today, nowMinutes, offset) != NoBell;
        assert Candidate(s, today, nowMinutes, offset, found.value);
      } else {
        assert SearchFrom(s, today, nowMinutes, offset) == SearchFrom(s, today, nowMinutes, offset + 1);
        if NoCandidateFrom(s, today, nowMinutes, offset + 1) {
          forall k, e | offset <= k && Candidate(s, today, nowMinutes, k, e) ensures false {
          }
        }
      }
    }
  }

  /** `ev`, taken `k` days ahead, rings no later than any event still to come
      on the days `offset` .. 6 ahead. */
  ghost predicate EarliestFrom(s: Schedule, today: nat, nowMinutes: int, offset: nat, ev: BellEvent, k: nat)
    requires WellFormedTime(ev.time)
  {
    forall k', e :: offset <= k' && Candidate(s, today, nowMinutes, k', e) ==> MinutesAhead(ev, k) <= MinutesAhead(e, k')
  }

  /** The search found `r` on day `k` (offset .. 6 ahead), and it is the earliest. */
  ghost predicate FoundEarliest(s: Schedule, today: nat, nowMinutes: int, offset: nat, r: NextBell, k: nat) {
    r.Bell? && offset <= k < 7 && Candidate(s, today, nowMinutes, k, r.event) &&
    r.dayName == DAYS_OF_WEEK[DayOf(today, k)] && EarliestFrom(s, today, nowMinutes, offset, r.event, k)
  }

  lemma {:induction false} SearchFromEarliest(s: Schedule, today: nat, nowMinutes: int, offset: nat)
    requires offset <= 7
    ensures SearchFrom(s, today, nowMinutes, offset).Bell? ==>
            exists k :: FoundEarliest(s, today, nowMinutes, offset, SearchFrom(s, today, nowMinutes, offset), k)
    decreases 7 - offset
  {
    if offset < 7 {
      var r := SearchFrom(s, today, nowMinutes, offset);
      var found := FirstOnDay(s, today, nowMinutes, offset);
      FirstOnDayIsEarliest(s, today, nowMinutes, offset);
      if found.Some? {
        var f := found.value;
        assert r == Bell(f, DAYS_OF_WEEK[DayOf(today, offset)]);
        forall k', e | offset <= k' && Candidate(s, today, nowMinutes, k', e)
          ensures MinutesAhead(f, offset) <= MinutesAhead(e, k')
        {
          if k' > offset {
            assert offset * 1440 + 1440 <= k' * 1440;
          }
        }
        assert FoundEarliest(s, today, nowMinutes, offset, r, offset);
      } else if r.Bell? {
        assert r == SearchFrom(s, today, nowMinutes, offset + 1);
        SearchFromEarliest(s, today, nowMinutes, offset + 1);
        var k :| FoundEarliest(s, today, nowMinutes, offset + 1, r, k);
        assert EarliestFrom(s, today, nowMinutes, offset + 1, r.event, k);
        forall k', e | offset <= k' && Candidate(s, today, nowMinutes, k', e)
          ensures MinutesAhead(r.event, k) <= MinutesAhead(e, k')
        {
          if k' == offset {
            assert false;
          } else {
            assert offset + 1 <= k' && Candidate(s, today, nowMinutes, k', e);
          }
        }
        assert FoundEarliest(s, today, nowMinutes, offset, r, k);
      }
    }
  }

  /** Next-bell resolution returns nothing exactly when no event of the coming
      seven days (today's only after the current minute) exists; otherwise it
      returns the earliest such event, tagged with the name of its weekday. */
  lemma NextBellIsEarliest(s: Schedule, now: Clock.DateTime)
    requires 0 <= now.weekday < 7
    ensures var nowMinutes := NowMinutes(now);
            NextBellAt(s, now) == NoBell <==>
            forall k, e :: Candidate(s, now.weekday, nowMinutes, k, e) ==> false
    ensures var nowMinutes := NowMinutes(now);
            var r := NextBellAt(s, now);
            r.Bell? ==>
            exists k :: 0 <= k < 7 && Candidate(s, now.weekday, nowMinutes, k, r.event) &&
              r.dayName == DAYS_OF_WEEK[DayOf(now.weekday, k)] &&
              forall k', e :: Candidate(s, now.weekday, nowMinutes, k', e) ==>
                MinutesAhead(r.event, k) <= MinutesAhead(e, k')
  {
    var nowMinutes := NowMinutes(now);
    if |s| == 0 {
      forall k, e | Candidate(s, now.weekday, nowMinutes, k, e) ensures false {
      }
    } else {
      assert NextBellAt(s, now) == SearchFrom(s, now.weekday, nowMinutes, 0);
      SearchFromNone(s, now.weekday, nowMinutes, 0);
      SearchFromEarliest(s, now.weekday, nowMinutes, 0);
    }
  }

  /** The inner scan of `find_next_bell` over one day's sorted events. */
  method FirstUpcomingIn(events: seq<BellEvent>, offset: nat, nowMinutes: int) returns (r: Option<BellEvent>)
    requires AllWellFormed(events)
    ensures r == FirstUpcoming(events, offset, nowMinutes)
  {
    for i := 0 to |events|
      invariant FirstUpcoming(events[i..], offset, nowMinutes) == FirstUpcoming(events, offset, nowMinutes)
    {
      var e := events[i];
      assert events[i..][1..] == events[i + 1..];
      var eventMinutes := EventMinutes(e.time);
      if offset == 0 && eventMinutes <= nowMinutes {
        continue;
      }
      return Some(e);
    }
    assert events[|events|..] == [];
    return None;
  }

  /** One day of `find_next_bell`: look up `str(day)`, sort it, scan it. */
  method FirstOnDayIn(s: Schedule, today: nat, nowMinutes: int, offset: nat) returns (found: Option<BellEvent>)
    ensures found == FirstOnDay(s, today, nowMinutes, offset)
  {
    var day := DayOf(today, offset);
    var key := DayKey(day);
    found := None;
    if key in s && s[key] != [] {
      var events := SortByTime(s[key]);
      found := FirstUpcomingIn(events, offset, nowMinutes);
    }
  }

  /** `find_next_bell`: the day-by-day, event-by-event search of the controller. */
  method FindNextBell(s: Schedule, now: Clock.DateTime) returns (r: NextBell)
    requires 0 <= now.weekday < 7
    ensures r == NextBellAt(s, now)
  {
    if |s| == 0 {
      return NoBell;
    }
    var nowMinutes := NowMinutes(now);
    for offset := 0 to 7
      invariant SearchFrom(s, now.weekday, nowMinutes, offset) == NextBellAt(s, now)
    {
      var found := FirstOnDayIn(s, now.weekday, nowMinutes, offset);
      if found.Some? {
        return Bell(found.value, DAYS_OF_WEEK[DayOf(now.weekday, offset)]);
      }
    }
    return NoBell;
  }

  // ---------------------------------------------------------------------------
  // Relay activations due at a minute

  /** `entry.get('relay')` is truthy: present and not 0. */
  predicate HasRelay(e: BellEvent) {
    e.relay.Some? && e.relay.value != 0
  }

  /** An entry fires at "HH:MM" `now` when its time equals it and it names a relay. */
  predicate Fires(e: BellEvent, now: string) {
    e.time == now && HasRelay(e)
  }

  /** The activation an entry asks for: its relay, for `belllength` seconds or
      the configured default. */
  function FiringOf(e: BellEvent): Firing
    requires HasRelay(e)
  {
    Firing(e.relay.value, e.bellLength.GetOr(Config.RELAY_ON_DURATION))
  }

  /** The activations the trigger performs for `events` at "HH:MM" `now`, in
      list order. */
  function Due(events: seq<BellEvent>, now: string): (fs: seq<Firing>)
    ensures |fs| <= |events|
  {
    if events == [] then []
    else (if Fires(events[0], now) then [FiringOf(events[0])] else []) + Due(events[1..], now)
  }

  /** The activations of a list are those of its front followed by those of
      its back: entries fire in list order. */
  lemma {:induction false} DueAppend(a: seq<BellEvent>, b: seq<BellEvent>, now: string)
    ensures Due(a + b, now) == Due(a, now) + Due(b, now)
  {
    if a != [] {
      assert (a + b)[1..] == a[1..] + b;
      DueAppend(a[1..], b, now);
    } else {
      assert a + b == b;
    }
  }

  /** An activation is performed exactly for the entries that fire. */
  lemma {:induction false} DueMembers(events: seq<BellEvent>, now: string)
    ensures forall f :: f in Due(events, now) <==> exists e :: e in events && Fires(e, now) && f == FiringOf(e)
  {
    if events != [] {
      DueMembers(events[1..], now);
      assert events == [events[0]] + events[1..];
    }
  }
}
