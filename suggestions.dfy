/** Free-slot suggestion (`suggest_time_slots`): starting at 00:00 of a day
 *  and stepping one hour at a time, report the first three hourly starts
 *  that the conflict check lets through.
 */
module Suggestions {
  import opened Wrappers
  import opened Calendar
  import opened Events
  import opened Conflicts

  /** The start of the k-th hour counted from 00:00 of `day`. */
  function HourStart(day: Date, k: int): int
    requires ValidDate(day)
  {
    Ordinal(day) * 1440 + 60 * k
  }

  /** The mock event built for the hour at `dt` carries the strftime'd date
   *  and time; the conflict check reads them back to the same instant and
   *  scans every record, excluding none. */
  lemma MockConflict(events: seq<Event>, dt: DateTime)
    requires ValidDateTime(dt)
    ensures IsConflict(events, FormatDate(dt.date), FormatTime(dt.time), None)
            == Scan(events, Instant(dt), None)
  {
    DateRoundTrip(dt.date);
    TimeRoundTrip(dt.time);
  }

  /** Whether a record blocks the k-th hour of `day`. */
  ghost function Busy(events: seq<Event>, day: Date): int -> bool
    requires ValidDate(day)
  {
    k => ScanConflict(events, HourStart(day, k), None)
  }

  /** The hours among the first n that `busy` marks. */
  ghost function HoursWhere(busy: int -> bool, n: int): set<int> {
    set k | 0 <= k < n && busy(k)
  }

  /** The number of hours among the first n that `busy` marks, counted one
   *  hour at a time as the scan proceeds. */
  ghost function CountWhere(busy: int -> bool, n: int): nat
    decreases n
  {
    if n <= 0 then 0 else CountWhere(busy, n - 1) + (if busy(n - 1) then 1 else 0)
  }

  lemma {:induction false} CountIsCardinality(busy: int -> bool, n: int)
    ensures CountWhere(busy, n) == |HoursWhere(busy, n)|
    decreases n
  {
    if n <= 0 {
      assert HoursWhere(busy, n) == {};
    } else {
      CountIsCardinality(busy, n - 1);
      var before := HoursWhere(busy, n - 1);
      if busy(n - 1) {
        assert n - 1 !in before;
        assert HoursWhere(busy, n) == before + {n - 1};
      } else {
        assert HoursWhere(busy, n) == before;
      }
    }
  }

  /** The hours among the first n of `day` that the one record `e` blocks. */
  ghost function HoursBlockedBy(e: Event, day: Date, n: int): set<int>
    requires ValidDate(day)
  {
    set k | 0 <= k < n && Blocks(e, HourStart(day, k), None)
  }

  lemma SubsetCardinality(a: set<int>, b: set<int>)
    requires a <= b
    ensures |a| <= |b|
  {
    assert b == a + (b - a);
  }

  /** A window of 60 minutes meets at most two hourly starts. */
  lemma OneRecordBlocksAtMostTwoHours(e: Event, day: Date, n: int)
    requires ValidDate(day)
    ensures |HoursBlockedBy(e, day, n)| <= 2
  {
    var blocked := HoursBlockedBy(e, day, n);
    if Start(e).Some? {
      var s := Start(e).value;
      var q := (s - HourStart(day, 0)) / 60;
      forall k | k in blocked
        ensures k == q || k == q + 1
      {
        assert Overlaps(s, HourStart(day, k));
      }
      SubsetCardinality(blocked, {q, q + 1});
    } else {
      assert blocked == {};
    }
  }

  /** An hour blocked by some record is blocked by the first or by one of the rest. */
  lemma BlockedByFirstOrRest(events: seq<Event>, day: Date, n: int, k: int)
    requires ValidDate(day) && events != []
    requires k in HoursWhere(Busy(events, day), n)
    ensures k in HoursBlockedBy(events[0], day, n) || k in HoursWhere(Busy(events[1..], day), n)
  {
    ScanCons(events, HourStart(day, k), None);
  }

  /** However far the scan goes, the records block at most two hours each. */
  lemma {:induction false} BlockedHoursBound(events: seq<Event>, day: Date, n: int)
    requires ValidDate(day)
    ensures |HoursWhere(Busy(events, day), n)| <= 2 * |events|
    decreases |events|
  {
    var all := HoursWhere(Busy(events, day), n);
    if events == [] {
      assert all == {};
    } else {
      var first := HoursBlockedBy(events[0], day, n);
      var rest := HoursWhere(Busy(events[1..], day), n);
      forall k | k in all
        ensures k in first + rest
      {
        BlockedByFirstOrRest(events, day, n, k);
      }
      OneRecordBlocksAtMostTwoHours(events[0], day, n);
      BlockedHoursBound(events[1..], day, n);
      SubsetCardinality(all, first + rest);
    }
  }

  /** The count of blocked hours the scan keeps never exceeds two per record. */
  lemma BlockedCountBound(events: seq<Event>, day: Date, n: int)
    requires ValidDate(day)
    ensures CountWhere(Busy(events, day), n) <= 2 * |events|
  {
    CountIsCardinality(Busy(events, day), n);
    BlockedHoursBound(events, day, n);
  }

  /** Every slot is a valid on-the-hour time among the first `scanned`
   *  hours of `day` that the conflict check lets through. */
  ghost predicate SlotsFree(events: seq<Event>, day: Date, slots: seq<DateTime>, scanned: nat)
    requires ValidDate(day)
  {
    forall i :: 0 <= i < |slots| ==>
      ValidDateTime(slots[i]) && slots[i].time.minute == 0
      && HourStart(day, 0) <= Instant(slots[i]) < HourStart(day, scanned)
      && !ScanConflict(events, Instant(slots[i]), None)
  }

  ghost predicate Ascending(slots: seq<DateTime>) {
    forall i, j :: 0 <= i < j < |slots| ==>
      ValidDateTime(slots[i]) && ValidDateTime(slots[j]) && Instant(slots[i]) < Instant(slots[j])
  }

  /** An hour counts as reported when some slot starts at it. */
  ghost predicate IsReported(slots: seq<DateTime>, t: int) {
    exists i :: 0 <= i < |slots| && ValidDateTime(slots[i]) && Instant(slots[i]) == t
  }

  /** Among the first `scanned` hours, exactly the unblocked ones are reported. */
  ghost predicate ExactlyTheFreeHours(events: seq<Event>, day: Date, slots: seq<DateTime>, scanned: nat)
    requires ValidDate(day)
  {
    forall k :: 0 <= k < scanned ==>
      (ScanConflict(events, HourStart(day, k), None) <==> !IsReported(slots, HourStart(day, k)))
  }

  /** A free hour appended to the slots keeps them free and in range. */
  lemma SlotsFreeStep(events: seq<Event>, day: Date, slots: seq<DateTime>, scanned: nat, current: DateTime)
    requires ValidDate(day)
    requires SlotsFree(events, day, slots, scanned)
    requires ValidDateTime(current) && current.time.minute == 0
    requires Instant(current) == HourStart(day, scanned)
    requires !ScanConflict(events, Instant(current), None)
    ensures SlotsFree(events, day, slots + [current], scanned + 1)
  {
    var next := slots + [current];
    forall i | 0 <= i < |next|
      ensures ValidDateTime(next[i]) && next[i].time.minute == 0
      ensures HourStart(day, 0) <= Instant(next[i]) < HourStart(day, scanned + 1)
      ensures !ScanConflict(events, Instant(next[i]), None)
    {
      if i < |slots| {
        assert next[i] == slots[i];
      }
    }
  }

  /** The hour just checked lies after every slot found so far. */
  lemma AscendingStep(day: Date, slots: seq<DateTime>, scanned: nat, current: DateTime, events: seq<Event>)
    requires ValidDate(day)
    requires SlotsFree(events, day, slots, scanned) && Ascending(slots)
    requires ValidDateTime(current) && Instant(current) == HourStart(day, scanned)
    ensures Ascending(slots + [current])
  {
    var next := slots + [current];
    forall i, j | 0 <= i < j < |next|
      ensures ValidDateTime(next[i]) && ValidDateTime(next[j]) && Instant(next[i]) < Instant(next[j])
    {
      assert next[i] == slots[i];
      if j < |slots| {
        assert next[j] == slots[j];
      }
    }
  }

  /** A blocked hour is not reported: every slot lies before it. */
  lemma BlockedHourStep(events: seq<Event>, day: Date, slots: seq<DateTime>, scanned: nat)
    requires ValidDate(day)
    requires SlotsFree(events, day, slots, scanned)
    requires ExactlyTheFreeHours(events, day, slots, scanned)
    requires ScanConflict(events, HourStart(day, scanned), None)
    ensures ExactlyTheFreeHours(events, day, slots, scanned + 1)
  {
  }

  /** A free hour appended to the slots becomes reported, and the earlier
   *  hours keep their verdict. */
  lemma FreeHourStep(events: seq<Event>, day: Date, slots: seq<DateTime>, scanned: nat, current: DateTime)
    requires ValidDate(day)
    requires ExactlyTheFreeHours(events, day, slots, scanned)
    requires ValidDateTime(current) && Instant(current) == HourStart(day, scanned)
    requires !ScanConflict(events, HourStart(day, scanned), None)
    ensures ExactlyTheFreeHours(events, day, slots + [current], scanned + 1)
  {
    var next := slots + [current];
    forall k | 0 <= k < scanned + 1
      ensures ScanConflict(events, HourStart(day, k), None) <==> !IsReported(next, HourStart(day, k))
    {
      if k < scanned {
        if IsReported(next, HourStart(day, k)) {
          var i :| 0 <= i < |next| && ValidDateTime(next[i]) && Instant(next[i]) == HourStart(day, k);
          if i < |slots| {
            assert next[i] == slots[i];
            assert IsReported(slots, HourStart(day, k));
          }
        }
        if IsReported(slots, HourStart(day, k)) {
          var i :| 0 <= i < |slots| && ValidDateTime(slots[i]) && Instant(slots[i]) == HourStart(day, k);
          assert next[i] == slots[i];
        }
      } else {
        assert next[|slots|] == current;
      }
    }
  }

  /** Slots free among the first `scanned` hours stay so among more hours. */
  lemma SlotsFreeWiden(events: seq<Event>, day: Date, slots: seq<DateTime>, scanned: nat, more: nat)
    requires ValidDate(day) && scanned <= more
    requires SlotsFree(events, day, slots, scanned)
    ensures SlotsFree(events, day, slots, more)
  {
  }

  // ---------------------------------------------------------------------------
  // The scan as specification functions
  // ---------------------------------------------------------------------------

  /** The k-th hour probed from 00:00 of `day`, reached by stepping an hour
   *  at a time; None once a step has left the calendar. */
  function HourAt(day: Date, k: nat): (r: Option<DateTime>)
    requires ValidDate(day)
    ensures r.Some? ==> ValidDateTime(r.value) && r.value.time.minute == 0
  {
    if k == 0 then
      Some(DateTime(day, TimeOfDay(0, 0)))
    else
      match HourAt(day, k - 1)
      case None => None
      case Some(previous) => AddHour(previous)
  }

  /** The k-th probe starts k hours after 00:00 of `day`. */
  lemma {:induction false} HourAtInstant(day: Date, k: nat)
    requires ValidDate(day) && HourAt(day, k).Some?
    ensures Instant(HourAt(day, k).value) == HourStart(day, k)
  {
    if k > 0 {
      HourAtInstant(day, k - 1);
      AddHourIsHourLater(HourAt(day, k - 1).value);
    }
  }

  /** Once a step has left the calendar every later probe has too. */
  lemma {:induction false} HourAtPrefix(day: Date, k: nat, m: nat)
    requires ValidDate(day) && k <= m
    requires HourAt(day, m).Some?
    ensures HourAt(day, k).Some?
    decreases m - k
  {
    if k < m {
      HourAtPrefix(day, k + 1, m);
    }
  }

  /** The step that leaves the calendar is the one after its last hour. */
  lemma CalendarEnd(day: Date, k: nat)
    requires ValidDate(day) && 1 <= k
    requires HourAt(day, k - 1).Some? && HourAt(day, k).None?
    ensures HourAt(day, k - 1) == Some(LAST_HOUR)
  {
    var previous := HourAt(day, k - 1).value;
    assert previous.time == TimeOfDay(23, 0);
  }

  /** The conflict check of the k-th probe raises OverflowError. */
  ghost predicate ProbeRaises(events: seq<Event>, day: Date, k: int)
    requires ValidDate(day)
  {
    Raises(events, HourStart(day, k), None)
  }

  /** One probe of the scan: the mock event for the k-th hour carries its
   *  date and time as text, and the hour is free when the conflict check,
   *  excluding no id, lets it through. None when that check raises. */
  method MockIsFree(events: seq<Event>, day: Date, ghost k: nat, probe: DateTime) returns (free: Option<bool>)
    requires ValidDate(day) && HourAt(day, k) == Some(probe)
    ensures free.None? <==> ProbeRaises(events, day, k)
    ensures free.Some? ==> (free.value <==> !ScanConflict(events, HourStart(day, k), None))
  {
    var date, time := FormatDate(probe.date), FormatTime(probe.time);
    MockConflict(events, probe);
    HourAtInstant(day, k);
    ScanRaisesIff(events, HourStart(day, k), None);
    var verdict := IsConflict(events, date, time, None);
    free := if verdict.None? then None else Some(!verdict.value);
  }

  /** The hours reported among the first n probes, in probing order: a
   *  probe is reported when no record blocks it. */
  function FreeAmong(events: seq<Event>, day: Date, n: nat): (r: seq<DateTime>)
    requires ValidDate(day)
    ensures |r| <= n
  {
    if n == 0 then
      []
    else
      FreeAmong(events, day, n - 1) +
        match HourAt(day, n - 1)
        case None => []
        case Some(p) => if ScanConflict(events, HourStart(day, n - 1), None) then [] else [p]
  }

  /** The reported hours after one more probe. */
  lemma ReportStep(events: seq<Event>, day: Date, scanned: nat, current: DateTime)
    requires ValidDate(day) && HourAt(day, scanned) == Some(current)
    ensures FreeAmong(events, day, scanned + 1) ==
      if ScanConflict(events, HourStart(day, scanned), None) then FreeAmong(events, day, scanned)
      else FreeAmong(events, day, scanned) + [current]
  {
  }

  /** A probe past the calendar reports nothing. */
  lemma NoProbeNoReport(events: seq<Event>, day: Date, k: nat)
    requires ValidDate(day) && HourAt(day, k).None?
    ensures FreeAmong(events, day, k + 1) == FreeAmong(events, day, k)
  {
  }

  /** Every reported hour is a valid on-the-hour start among the first n
   *  hours of the day that no record blocks, and they come in ascending
   *  order. */
  lemma {:induction false} FreeAmongSound(events: seq<Event>, day: Date, n: nat)
    requires ValidDate(day)
    ensures SlotsFree(events, day, FreeAmong(events, day, n), n)
    ensures Ascending(FreeAmong(events, day, n))
  {
    if n > 0 {
      var k := n - 1;
      FreeAmongSound(events, day, k);
      var before := FreeAmong(events, day, k);
      if HourAt(day, k).None? {
        assert FreeAmong(events, day, n) == before;
        SlotsFreeWiden(events, day, before, k, n);
      } else {
        var p := HourAt(day, k).value;
        ReportStep(events, day, k, p);
        if ScanConflict(events, HourStart(day, k), None) {
          SlotsFreeWiden(events, day, before, k, n);
        } else {
          HourAtInstant(day, k);
          SlotsFreeStep(events, day, before, k, p);
          AscendingStep(day, before, k, p, events);
        }
      }
    }
  }

  /** While the probes stay inside the calendar, every one of the first n
   *  hours that no record blocks is reported, and no blocked hour is. */
  lemma {:induction false} FreeAmongComplete(events: seq<Event>, day: Date, n: nat)
    requires ValidDate(day)
    requires n == 0 || HourAt(day, n - 1).Some?
    ensures ExactlyTheFreeHours(events, day, FreeAmong(events, day, n), n)
  {
    if n > 0 {
      var k := n - 1;
      if k > 0 {
        HourAtPrefix(day, k - 1, k);
      }
      FreeAmongComplete(events, day, k);
      FreeAmongSound(events, day, k);
      var before := FreeAmong(events, day, k);
      var p := HourAt(day, k).value;
      HourAtInstant(day, k);
      ReportStep(events, day, k, p);
      if ScanConflict(events, HourStart(day, k), None) {
        BlockedHourStep(events, day, before, k);
      } else {
        FreeHourStep(events, day, before, k, p);
      }
    }
  }

  /** Each probe inside the calendar is either reported or blocked. */
  lemma {:induction false} FreeOrBusy(events: seq<Event>, day: Date, n: nat)
    requires ValidDate(day)
    requires n == 0 || HourAt(day, n - 1).Some?
    ensures |FreeAmong(events, day, n)| + CountWhere(Busy(events, day), n) == n
  {
    if n > 0 {
      var k := n - 1;
      if k > 0 {
        HourAtPrefix(day, k - 1, k);
      }
      FreeOrBusy(events, day, k);
      ReportStep(events, day, k, HourAt(day, k).value);
    }
  }

  /** The records block at most two hours each, so after n probes at least
   *  n - 2 * |events| of them were reported. */
  lemma ScanBound(events: seq<Event>, day: Date, n: nat)
    requires ValidDate(day)
    requires n == 0 || HourAt(day, n - 1).Some?
    ensures n <= 2 * |events| + |FreeAmong(events, day, n)|
  {
    FreeOrBusy(events, day, n);
    BlockedCountBound(events, day, n);
  }

  /** What the scan has established after `scanned` probes, none of which
   *  raised, with `current` the next hour to probe. `overflow` is set once
   *  a step has left the calendar or the next probe's check has raised. */
  ghost predicate Scanning(events: seq<Event>, day: Date, slots: seq<DateTime>, scanned: nat, current: DateTime, overflow: bool)
    requires ValidDate(day)
  {
    && slots == FreeAmong(events, day, scanned)
    && |slots| <= 3
    && scanned <= 2 * |events| + |slots|
    && (1 <= scanned ==> HourAt(day, scanned - 1).Some? && |FreeAmong(events, day, scanned - 1)| < 3)
    && (forall k :: 0 <= k < scanned ==> !ProbeRaises(events, day, k))
    && (HourAt(day, scanned).None? ==> overflow)
    && (overflow ==> HourAt(day, scanned).None? || (|slots| < 3 && ProbeRaises(events, day, scanned)))
    && (!overflow ==> HourAt(day, scanned) == Some(current))
  }

  /** The probe after `current`. */
  lemma ProbeStep(day: Date, scanned: nat, current: DateTime)
    requires ValidDate(day) && HourAt(day, scanned) == Some(current)
    ensures HourAt(day, scanned + 1) == AddHour(current)
  {
  }

  /** One more probe that does not raise keeps what the scan has
   *  established. */
  lemma ScanningStep(events: seq<Event>, day: Date, slots: seq<DateTime>, scanned: nat, current: DateTime)
    requires ValidDate(day)
    requires Scanning(events, day, slots, scanned, current, false) && |slots| < 3
    requires !ProbeRaises(events, day, scanned)
    ensures var reported := if ScanConflict(events, HourStart(day, scanned), None) then slots else slots + [current];
            var next := AddHour(current);
            Scanning(events, day, reported, scanned + 1, if next.Some? then next.value else current, next.None?)
  {
    ReportStep(events, day, scanned, current);
    ScanBound(events, day, scanned + 1);
    ProbeStep(day, scanned, current);
  }

  /** One turn of the loop: probe the hour at `current`, report it when it
   *  is free, and step the probe on by an hour; `raised` when the probe's
   *  conflict check raises, which ends the scan where it stands. */
  method ProbeHour(events: seq<Event>, day: Date, slots: seq<DateTime>, current: DateTime, ghost scanned: nat)
    returns (reported: seq<DateTime>, next: Option<DateTime>, raised: bool)
    requires ValidDate(day)
    requires Scanning(events, day, slots, scanned, current, false) && |slots| < 3
    ensures raised ==> reported == slots && Scanning(events, day, slots, scanned, current, true)
    ensures !raised ==>
      Scanning(events, day, reported, scanned + 1, if next.Some? then next.value else current, next.None?)
  {
    var free := MockIsFree(events, day, scanned, current);
    if free.None? {
      return slots, None, true;
    }
    reported := if free.value then slots + [current] else slots;
    next, raised := AddHour(current), false;
    ScanningStep(events, day, slots, scanned, current);
  }

  /** `suggest_time_slots(events, day)`. The hours are probed in order from
   *  00:00 of `day`, possibly running into later days, and `scanned` counts
   *  the probes that ran to completion. The slots are the free hours among
   *  them, and the scan did not stop before the last of them: FreeAmongSound
   *  and FreeAmongComplete then make these the first free hourly starts. At
   *  most 2 * |events| + 3 hours are probed. Python raises OverflowError,
   *  after printing the slots found so far, in two places, and `overflow`
   *  marks both: when the step after the last probe leaves the calendar
   *  (the step after 23:00 of 31-12-9999), and when the conflict check of
   *  the next probe raises (ProbeRaises). Without it, three slots were
   *  found. */
  method SuggestTimeSlots(events: seq<Event>, day: Date)
    returns (slots: seq<DateTime>, overflow: bool, ghost scanned: nat)
    requires ValidDate(day)
    ensures slots == FreeAmong(events, day, scanned)
    ensures scanned <= 2 * |events| + 3
    ensures 1 <= scanned ==> HourAt(day, scanned - 1).Some? && |FreeAmong(events, day, scanned - 1)| < 3
    ensures forall k :: 0 <= k < scanned ==> !ProbeRaises(events, day, k)
    ensures |slots| <= 3
    ensures !overflow ==> |slots| == 3
    ensures overflow <==> HourAt(day, scanned).None? || (|slots| < 3 && ProbeRaises(events, day, scanned))
  {
    var current := DateTime(day, TimeOfDay(0, 0));
    slots, overflow, scanned := [], false, 0;
    while |slots| < 3 && !overflow
      invariant Scanning(events, day, slots, scanned, current, overflow)
      decreases 2 * |events| + 3 - scanned, if overflow then 0 else 1
    {
      var next, raised;
      slots, next, raised := ProbeHour(events, day, slots, current, scanned);
      if raised {
        overflow := true;
      } else {
        scanned := scanned + 1;
        if next.None? {
          overflow := true;
        } else {
          current := next.value;
        }
      }
    }
  }

  /** An hour whose conflict check raises is never reported by probes that
   *  did not raise. */
  lemma {:induction false} RaisingHourUnreported(events: seq<Event>, day: Date, n: nat, hour: DateTime)
    requires ValidDate(day) && ValidDateTime(hour)
    requires Raises(events, Instant(hour), None)
    requires forall k :: 0 <= k < n ==> !ProbeRaises(events, day, k)
    ensures hour !in FreeAmong(events, day, n)
  {
    if n > 0 {
      var k := n - 1;
      RaisingHourUnreported(events, day, k, hour);
      if HourAt(day, k).Some? {
        var p := HourAt(day, k).value;
        HourAtInstant(day, k);
        ReportStep(events, day, k, p);
        assert !ProbeRaises(events, day, k);
        assert !Raises(events, Instant(p), None);
        assert FreeAmong(events, day, n) == FreeAmong(events, day, k)
               || FreeAmong(events, day, n) == FreeAmong(events, day, k) + [p];
        assert p != hour;
      } else {
        NoProbeNoReport(events, day, k);
      }
    }
  }

  /** When some record is scanned by a check that excludes no id, as after
   *  the conflict that leads `add_event` to suggest, the probe at 23:00 of
   *  31-12-9999 always raises: that hour is never reported. */
  lemma NoSlotInLastHour(events: seq<Event>, day: Date, n: nat)
    requires ValidDate(day)
    requires exists i :: 0 <= i < |events| && Scanned(events[i], None)
    requires forall k :: 0 <= k < n ==> !ProbeRaises(events, day, k)
    ensures LAST_HOUR !in FreeAmong(events, day, n)
  {
    HourLaterPassesEnd(LAST_HOUR);
    EndingCandidateRaises(events, Instant(LAST_HOUR), None);
    RaisingHourUnreported(events, day, n, LAST_HOUR);
  }
}
