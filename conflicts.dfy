/** Conflict detection (`is_conflict`): every event occupies the 60-minute
 *  window that starts at its date and time, and a candidate conflicts when
 *  its window overlaps that of some record the scan does not skip.
 */
module Conflicts {
  import opened Wrappers
  import opened Calendar
  import opened Events

  /** The fixed length of every event, in minutes. */
  const DURATION: int := 60

  function Max(a: int, b: int): int { if a < b then b else a }
  function Min(a: int, b: int): int { if a < b then a else b }

  /** The start instant of the window at `date time`; None when the date
   *  or the time does not parse. The source parses the single stamp
   *  `date + " " + time`; StampOfFields shows that this is the same. */
  function StartOf(date: string, time: string): (r: Option<int>)
    ensures r.Some? <==> ParseDate(date).Some? && ParseTime(time).Some?
  {
    match (ParseDate(date), ParseTime(time))
    case (Some(d), Some(t)) => Some(Instant(DateTime(d, t)))
    case _ => None
  }

  /** Reading the combined stamp gives the same start as StartOf. */
  lemma StartOfStamp(date: string, time: string)
    ensures StartOf(date, time) ==
      match ParseStamp(date + " " + time)
      case None => None
      case Some(dt) => Some(Instant(dt))
  {
    StampOfFields(date, time);
  }

  function Start(e: Event): Option<int> {
    StartOf(e.date, e.time)
  }

  /** Two windows `[s1, s1 + 60)` and `[s2, s2 + 60)` overlap: the later
   *  start comes before the earlier end, i.e. the starts are less than an
   *  hour apart. */
  predicate Overlaps(s1: int, s2: int)
    ensures Overlaps(s1, s2) <==> -DURATION < s1 - s2 < DURATION
  {
    Max(s1, s2) < Min(s1 + DURATION, s2 + DURATION)
  }

  /** The scan does not skip the record: its id is not the excluded one,
   *  and its date and time parse. */
  predicate Scanned(e: Event, exclude: Option<string>) {
    e.id != exclude && Start(e).Some?
  }

  /** A record blocks the window at `t` when the scan does not skip it and
   *  its own window overlaps. */
  predicate Blocks(e: Event, t: int, exclude: Option<string>) {
    Scanned(e, exclude) && Overlaps(Start(e).value, t)
  }

  /** The verdict the loop of `is_conflict` reaches when it does not
   *  raise, for an already parsed candidate start: true on the first record
   *  that blocks it. */
  function ScanConflict(events: seq<Event>, t: int, exclude: Option<string>): bool {
    if events == [] then
      false
    else if events[0].id == exclude then
      ScanConflict(events[1..], t, exclude)
    else
      match Start(events[0])
      case None => ScanConflict(events[1..], t, exclude)
      case Some(s) => Overlaps(s, t) || ScanConflict(events[1..], t, exclude)
  }

  /** The scan finds a conflict exactly when some record blocks the window. */
  lemma {:induction false} ScanConflictIff(events: seq<Event>, t: int, exclude: Option<string>)
    ensures ScanConflict(events, t, exclude) <==> exists i :: 0 <= i < |events| && Blocks(events[i], t, exclude)
  {
    if events != [] {
      ScanConflictIff(events[1..], t, exclude);
      if ScanConflict(events[1..], t, exclude) {
        var i :| 0 <= i < |events[1..]| && Blocks(events[1..][i], t, exclude);
        assert Blocks(events[i + 1], t, exclude);
      }
      if exists i :: 0 <= i < |events| && Blocks(events[i], t, exclude) {
        var i :| 0 <= i < |events| && Blocks(events[i], t, exclude);
        if i > 0 {
          assert Blocks(events[1..][i - 1], t, exclude);
        }
      }
    }
  }

  /** `start + timedelta(minutes=60)` raises OverflowError: the window
   *  would end past the last minute a Python `datetime` can hold. */
  predicate EndOverflows(t: int) {
    t + DURATION > LAST_MINUTE
  }

  /** For a parsed start, the end overflows exactly in the last hour of
   *  31-12-9999. */
  lemma EndOverflowsAt(date: string, time: string)
    requires StartOf(date, time).Some?
    ensures EndOverflows(StartOf(date, time).value)
            <==> ParseDate(date).value == LAST_HOUR.date && ParseTime(time).value.hour == 23
  {
    HourLaterPassesEnd(DateTime(ParseDate(date).value, ParseTime(time).value));
  }

  /** The loop of `is_conflict` as Python runs it, for an already parsed
   *  candidate start: at each record it does not skip it computes both
   *  windows' ends, which raises OverflowError (None here) when either
   *  start lies in the last hour of 31-12-9999; otherwise it returns true
   *  on an overlap and goes on with the next record. */
  function Scan(events: seq<Event>, t: int, exclude: Option<string>): Option<bool> {
    if events == [] then
      Some(false)
    else if events[0].id == exclude then
      Scan(events[1..], t, exclude)
    else
      match Start(events[0])
      case None => Scan(events[1..], t, exclude)
      case Some(s) =>
        if EndOverflows(s) || EndOverflows(t) then None
        else if Overlaps(s, t) then Some(true)
        else Scan(events[1..], t, exclude)
  }

  /** The scan raises at position i: it does not skip that record, the
   *  record's end or the candidate's end overflows, and no earlier record
   *  blocked the candidate. */
  ghost predicate RaisesAt(events: seq<Event>, t: int, exclude: Option<string>, i: int)
    requires 0 <= i < |events|
  {
    && Scanned(events[i], exclude)
    && (EndOverflows(Start(events[i]).value) || EndOverflows(t))
    && forall j :: 0 <= j < i ==> !Blocks(events[j], t, exclude)
  }

  ghost predicate Raises(events: seq<Event>, t: int, exclude: Option<string>) {
    exists i :: 0 <= i < |events| && RaisesAt(events, t, exclude, i)
  }

  /** A raise further down the list is a raise past the first record. */
  lemma RaisesAtShift(events: seq<Event>, t: int, exclude: Option<string>, i: int)
    requires 0 < i < |events|
    ensures RaisesAt(events, t, exclude, i) <==>
      !Blocks(events[0], t, exclude) && RaisesAt(events[1..], t, exclude, i - 1)
  {
    var rest := events[1..];
    assert rest[i - 1] == events[i];
    if RaisesAt(events, t, exclude, i) {
      forall j | 0 <= j < i - 1
        ensures !Blocks(rest[j], t, exclude)
      {
        assert rest[j] == events[j + 1];
      }
    }
    if !Blocks(events[0], t, exclude) && RaisesAt(rest, t, exclude, i - 1) {
      forall j | 0 <= j < i
        ensures !Blocks(events[j], t, exclude)
      {
        if j > 0 {
          assert events[j] == rest[j - 1];
        }
      }
    }
  }

  /** Raising decided on the first record, then on the rest. */
  lemma RaisesCons(events: seq<Event>, t: int, exclude: Option<string>)
    requires events != []
    ensures Raises(events, t, exclude) <==>
      RaisesAt(events, t, exclude, 0)
      || (!Blocks(events[0], t, exclude) && Raises(events[1..], t, exclude))
  {
    var rest := events[1..];
    if Raises(events, t, exclude) && !RaisesAt(events, t, exclude, 0) {
      var i :| 0 <= i < |events| && RaisesAt(events, t, exclude, i);
      RaisesAtShift(events, t, exclude, i);
    }
    if !Blocks(events[0], t, exclude) && Raises(rest, t, exclude) {
      var i :| 0 <= i < |rest| && RaisesAt(rest, t, exclude, i);
      RaisesAtShift(events, t, exclude, i + 1);
    }
  }

  /** The loop raises exactly when Raises holds, and otherwise returns the
   *  verdict of ScanConflict. */
  lemma {:induction false} ScanRaisesIff(events: seq<Event>, t: int, exclude: Option<string>)
    ensures Scan(events, t, exclude) ==
      if Raises(events, t, exclude) then None else Some(ScanConflict(events, t, exclude))
  {
    if events != [] {
      ScanRaisesIff(events[1..], t, exclude);
      RaisesCons(events, t, exclude);
    }
  }

  /** Some record is not skipped: the first one, or one of the rest. */
  lemma ScannedCons(events: seq<Event>, exclude: Option<string>)
    requires events != []
    ensures (exists i :: 0 <= i < |events| && Scanned(events[i], exclude)) <==>
      Scanned(events[0], exclude) || exists i :: 0 <= i < |events[1..]| && Scanned(events[1..][i], exclude)
  {
    var rest := events[1..];
    if exists i :: 0 <= i < |events| && Scanned(events[i], exclude) {
      var i :| 0 <= i < |events| && Scanned(events[i], exclude);
      if i > 0 {
        assert rest[i - 1] == events[i];
      }
    }
    if exists i :: 0 <= i < |rest| && Scanned(rest[i], exclude) {
      var i :| 0 <= i < |rest| && Scanned(rest[i], exclude);
      assert events[i + 1] == rest[i];
    }
  }

  /** A candidate whose own end overflows makes the scan raise exactly when
   *  there is some record it does not skip. */
  lemma {:induction false} EndingCandidateRaises(events: seq<Event>, t: int, exclude: Option<string>)
    requires EndOverflows(t)
    ensures Raises(events, t, exclude) <==> exists i :: 0 <= i < |events| && Scanned(events[i], exclude)
  {
    if events != [] {
      RaisesCons(events, t, exclude);
      EndingCandidateRaises(events[1..], t, exclude);
      ScannedCons(events, exclude);
    }
  }

  /** `is_conflict(events, candidate, exclude)`: a candidate whose date or
   *  time does not parse never conflicts. Otherwise the call raises
   *  OverflowError (None) exactly when Raises holds, and when it returns,
   *  it reports whether some record blocks the candidate's window. */
  function IsConflict(events: seq<Event>, date: string, time: string, exclude: Option<string>): (r: Option<bool>)
    ensures StartOf(date, time).None? ==> r == Some(false)
    ensures StartOf(date, time).Some? ==> (r.None? <==> Raises(events, StartOf(date, time).value, exclude))
    ensures StartOf(date, time).Some? && r.Some? ==>
      (r.value <==> exists i :: 0 <= i < |events| && Blocks(events[i], StartOf(date, time).value, exclude))
  {
    match StartOf(date, time)
    case None => Some(false)
    case Some(t) =>
      ScanRaisesIff(events, t, exclude);
      ScanConflictIff(events, t, exclude);
      Scan(events, t, exclude)
  }

  /** With no exclusion id the scan compares each record's id with None, so
   *  a record without an id never blocks anything. */
  lemma {:induction false} IdlessRecordNeverBlocks(events: seq<Event>, e: Event, t: int)
    requires e.id.None?
    ensures ScanConflict(events + [e], t, None) == ScanConflict(events, t, None)
    ensures !ScanConflict([e], t, None)
  {
    var all := events + [e];
    ScanConflictIff(all, t, None);
    ScanConflictIff(events, t, None);
    ScanSingle(e, t, None);
    if ScanConflict(all, t, None) {
      var i :| 0 <= i < |all| && Blocks(all[i], t, None);
      assert i < |events| && Blocks(events[i], t, None);
    }
    if ScanConflict(events, t, None) {
      var i :| 0 <= i < |events| && Blocks(events[i], t, None);
      assert all[i] == events[i];
    }
  }

  /** Records whose id is the excluded one play no part in the verdict. */
  lemma {:induction false} ExcludedRecordIrrelevant(events: seq<Event>, i: int, t: int, exclude: Option<string>)
    requires 0 <= i < |events| && events[i].id == exclude
    ensures ScanConflict(events, t, exclude) == ScanConflict(events[..i] + events[i + 1..], t, exclude)
    decreases i
  {
    var rest := events[..i] + events[i + 1..];
    if i == 0 {
      assert rest == events[1..];
    } else {
      var tail := events[1..];
      ExcludedRecordIrrelevant(tail, i - 1, t, exclude);
      assert rest[0] == events[0];
      assert rest[1..] == tail[..i - 1] + tail[i..];
      ScanCons(events, t, exclude);
      ScanCons(rest, t, exclude);
    }
  }

  /** The scan decides on the first record, then on the rest. */
  lemma ScanCons(events: seq<Event>, t: int, exclude: Option<string>)
    requires events != []
    ensures ScanConflict(events, t, exclude)
            == (Blocks(events[0], t, exclude) || ScanConflict(events[1..], t, exclude))
  {
  }

  /** Against a single record the scan is that record's verdict. */
  lemma ScanSingle(e: Event, t: int, exclude: Option<string>)
    ensures ScanConflict([e], t, exclude) == Blocks(e, t, exclude)
  {
    assert [e][0] == e;
  }

  /** Conflict is symmetric between two records that both carry an id:
   *  each check raises, conflicts or passes exactly when the other does. */
  lemma ConflictIsSymmetric(a: Event, b: Event)
    requires a.id.Some? && b.id.Some?
    ensures IsConflict([a], b.date, b.time, None) == IsConflict([b], a.date, a.time, None)
  {
    var sa, sb := Start(a), Start(b);
    assert [a][1..] == [] && [b][1..] == [];
    if sa.Some? && sb.Some? {
      assert Overlaps(sa.value, sb.value) == Overlaps(sb.value, sa.value);
    }
  }

  /** Without an id on one side the symmetry fails: the id-less record is
   *  skipped when it is the stored one, but not when it is the candidate. */
  lemma ConflictAsymmetricWithoutId(stored: Event, other: Event)
    requires stored.id == None && other.id.Some?
    requires stored.date == other.date == "01-01-2030"
    requires stored.time == "10:00" && other.time == "10:30"
    ensures IsConflict([stored], other.date, other.time, None) == Some(false)
    ensures IsConflict([other], stored.date, stored.time, None) == Some(true)
  {
    HalfHourApart();
    var t := StartOf(other.date, other.time).value;
    var u := StartOf(stored.date, stored.time).value;
    assert [stored][1..] == [] && [other][1..] == [];
    assert Scan([stored], t, None) == Some(false);
    assert Start(other) == Some(t);
    assert Scan([other], u, None) == Some(true);
  }

  /** Windows at 10:00 and 10:30 of one day overlap; at 10:00 and 11:00 they
   *  only touch, which is not a conflict. None of them ends past the
   *  calendar. */
  lemma HalfHourApart()
    ensures StartOf("01-01-2030", "10:30").Some? && StartOf("01-01-2030", "10:00").Some?
    ensures StartOf("01-01-2030", "10:30").value - StartOf("01-01-2030", "10:00").value == 30
    ensures StartOf("01-01-2030", "11:00").Some?
    ensures StartOf("01-01-2030", "11:00").value - StartOf("01-01-2030", "10:00").value == 60
    ensures !EndOverflows(StartOf("01-01-2030", "10:00").value)
    ensures !EndOverflows(StartOf("01-01-2030", "10:30").value)
    ensures !EndOverflows(StartOf("01-01-2030", "11:00").value)
  {
    var d := Date(1, 1, 2030);
    DateRoundTrip(d);
    TimeRoundTrip(TimeOfDay(10, 0));
    TimeRoundTrip(TimeOfDay(10, 30));
    TimeRoundTrip(TimeOfDay(11, 0));
    assert FormatDate(d) == "01-01-2030";
    assert FormatTime(TimeOfDay(10, 0)) == "10:00";
    assert FormatTime(TimeOfDay(10, 30)) == "10:30";
    assert FormatTime(TimeOfDay(11, 0)) == "11:00";
    EndOverflowsAt("01-01-2030", "10:00");
    EndOverflowsAt("01-01-2030", "10:30");
    EndOverflowsAt("01-01-2030", "11:00");
  }

  lemma OverlapBoundaryExamples()
    ensures var stored := [Event(Some("ab12cd34"), "Standup", "01-01-2030", "10:00", "", "")];
            IsConflict(stored, "01-01-2030", "10:30", None) == Some(true)
            && IsConflict(stored, "01-01-2030", "11:00", None) == Some(false)
  {
    var stored := [Event(Some("ab12cd34"), "Standup", "01-01-2030", "10:00", "", "")];
    HalfHourApart();
    assert stored[1..] == [];
  }

  /** 23:30 of 31-12-9999 parses, and its window ends past the calendar. */
  lemma LastHalfHour()
    ensures StartOf("31-12-9999", "23:30").Some?
    ensures EndOverflows(StartOf("31-12-9999", "23:30").value)
  {
    DateRoundTrip(Date(31, 12, MAX_YEAR));
    TimeRoundTrip(TimeOfDay(23, 30));
    assert FormatDate(Date(31, 12, MAX_YEAR)) == "31-12-9999";
    assert FormatTime(TimeOfDay(23, 30)) == "23:30";
    EndOverflowsAt("31-12-9999", "23:30");
  }

  /** The last hour of 31-12-9999 makes `is_conflict` raise, whether it is
   *  the candidate's start or a scanned record's. */
  lemma LastHourRaises()
    ensures var early := Event(Some("ab12cd34"), "Standup", "01-01-2030", "10:00", "", "");
            var late := Event(Some("ef56ab78"), "Countdown", "31-12-9999", "23:30", "", "");
            IsConflict([early], late.date, late.time, None).None?
            && IsConflict([late], early.date, early.time, None).None?
  {
    var early := Event(Some("ab12cd34"), "Standup", "01-01-2030", "10:00", "", "");
    var late := Event(Some("ef56ab78"), "Countdown", "31-12-9999", "23:30", "", "");
    HalfHourApart();
    LastHalfHour();
    var t, u := StartOf("31-12-9999", "23:30").value, StartOf("01-01-2030", "10:00").value;
    assert Start(early) == Some(u) && Start(late) == Some(t);
    assert Scan([early], t, None) == None;
    assert Scan([late], u, None) == None;
  }

  // ---------------------------------------------------------------------------
  // The no-overlap invariant the registry aims to keep
  // ---------------------------------------------------------------------------

  /** No two distinct positions hold records whose windows overlap (records
   *  that do not parse occupy no window). */
  ghost predicate NoOverlap(events: seq<Event>) {
    forall i, j :: 0 <= i < |events| && 0 <= j < |events| && i != j
      && Start(events[i]).Some? && Start(events[j]).Some?
      ==> !Overlaps(Start(events[i]).value, Start(events[j]).value)
  }

  predicate AllIdentified(events: seq<Event>) {
    forall i :: 0 <= i < |events| ==> events[i].id.Some?
  }

  predicate UniqueIds(events: seq<Event>) {
    forall i, j :: 0 <= i < j < |events| ==> events[i].id != events[j].id
  }

  /** In a registry without overlaps, a record's own window never conflicts
   *  with the rest when its id is the excluded one: an edit that keeps the
   *  date and time cannot be refused as a conflict. */
  lemma {:induction false} OwnWindowNeverConflicts(events: seq<Event>, i: int)
    requires NoOverlap(events)
    requires 0 <= i < |events| && Start(events[i]).Some?
    ensures !ScanConflict(events, Start(events[i]).value, events[i].id)
  {
    ScanConflictIff(events, Start(events[i]).value, events[i].id);
  }
}
