/** The registry mutations: the validate-and-commit bodies of `add_event`,
 *  `edit_event` and `delete_event`. The loaded event list is the field of
 *  an `EventRegistry`; the values an operator types, the fresh id and the
 *  outcome message are parameters and results.
 */
module Registry {
  import opened Wrappers
  import opened Calendar
  import opened Events
  import opened Conflicts
  import opened Suggestions

  /** The values typed for one event: name, date, time, type and location. */
  datatype Entry = Entry(name: string, date: string, time: string, kind: string, location: string)

  /** What an operation reports. `Saved` is the success message of each
   *  operation; `NotFound`, `InvalidFormat` and `Conflict` are its
   *  refusals; `Crash` is the uncaught OverflowError of the conflict check,
   *  which ends the program before anything is saved. */
  datatype Outcome = Saved | NotFound | InvalidFormat | Conflict | Crash

  /** The verdict on a proposed date and time: the two fields must each
   *  parse, then the conflict check (skipping the excluded id) must pass;
   *  `Overflow` when that check raises. */
  datatype Verdict = Accept | BadFormat | Clash | Overflow

  function Admit(events: seq<Event>, date: string, time: string, exclude: Option<string>): (r: Verdict)
    ensures r == BadFormat <==> StartOf(date, time).None?
    ensures r == Overflow <==>
      StartOf(date, time).Some? && Raises(events, StartOf(date, time).value, exclude)
    ensures r == Accept <==>
      StartOf(date, time).Some? && !Raises(events, StartOf(date, time).value, exclude)
      && forall i :: 0 <= i < |events| ==> !Blocks(events[i], StartOf(date, time).value, exclude)
  {
    if ParseDate(date).None? || ParseTime(time).None? then BadFormat
    else
      match IsConflict(events, date, time, exclude)
      case None => Overflow
      case Some(conflict) => if conflict then Clash else Accept
  }

  /** `input(...) or current`: a blank answer keeps the current value. */
  function OrKeep(typed: string, current: string): (r: string) {
    if typed == "" then current else typed
  }

  /** The record an edit proposes: the found record's id, and each field
   *  either typed anew or kept. */
  function Revised(e: Event, entry: Entry): (r: Event) {
    Event(e.id, OrKeep(entry.name, e.name), OrKeep(entry.date, e.date),
          OrKeep(entry.time, e.time), OrKeep(entry.kind, e.kind),
          OrKeep(entry.location, e.location))
  }

  /** The record an accepted add appends. */
  function Created(id: string, entry: Entry): (r: Event) {
    Event(Some(id), entry.name, entry.date, entry.time, entry.kind, entry.location)
  }

  /** `list.remove(x)`: drop the first element equal to `x`. */
  function RemoveFirst(s: seq<Event>, x: Event): (r: seq<Event>)
    requires x in s
    ensures |r| == |s| - 1
  {
    assert s == [s[0]] + s[1..];
    if s[0] == x then s[1..] else [s[0]] + RemoveFirst(s[1..], x)
  }

  class EventRegistry {
    /** The events as loaded, in file order. */
    var events: seq<Event>

    constructor(stored: seq<Event>)
      ensures events == stored
    {
      events := stored;
    }

    /** `add_event`: refuse a date or time that does not parse; on a
     *  conflict leave the list as it is and propose up to three free hours
     *  from 00:00 of that day on; otherwise append the new record under the fresh id. No
     *  check is made on the id or on a repeated name. */
    method Add(id: string, entry: Entry) returns (outcome: Outcome, suggestions: seq<DateTime>, overflow: bool, ghost scanned: nat)
      modifies this
      ensures var verdict := Admit(old(events), entry.date, entry.time, None);
              && (verdict == Accept ==> outcome == Saved && events == old(events) + [Created(id, entry)])
              && (verdict == BadFormat ==> outcome == InvalidFormat && events == old(events))
              && (verdict == Clash ==> outcome == Conflict && events == old(events))
              && (verdict == Overflow ==> outcome == Crash && events == old(events))
      ensures outcome == Conflict ==>
              var day := ParseDate(entry.date).value;
              && suggestions == FreeAmong(old(events), day, scanned)
              && |suggestions| <= 3
              && (forall k :: 0 <= k < scanned ==> !ProbeRaises(old(events), day, k))
              && (!overflow ==> |suggestions| == 3)
              && (overflow <==> HourAt(day, scanned).None? || (|suggestions| < 3 && ProbeRaises(old(events), day, scanned)))
              && LAST_HOUR !in suggestions
      ensures outcome != Conflict ==> suggestions == [] && !overflow
      ensures NoOverlap(old(events)) && AllIdentified(old(events)) ==> NoOverlap(events)
    {
      suggestions, overflow, scanned := [], false, 0;
      var verdict := Admit(events, entry.date, entry.time, None);
      if verdict == BadFormat {
        outcome := InvalidFormat;
      } else if verdict == Overflow {
        outcome := Crash;
      } else if verdict == Clash {
        outcome := Conflict;
        var day := ParseDate(entry.date).value;
        suggestions, overflow, scanned := SuggestTimeSlots(events, day);
        ClashScansSomeRecord(events, entry.date, entry.time);
        NoSlotInLastHour(events, day, scanned);
      } else {
        if NoOverlap(events) && AllIdentified(events) {
          AcceptedKeepsNoOverlap(events, Created(id, entry));
        }
        events := events + [Created(id, entry)];
        outcome := Saved;
      }
    }

    /** `edit_event`: find the record; refuse when there is none, when the
     *  revised date or time does not parse, or when the revised window
     *  meets another record's (the found record's id is excluded);
     *  otherwise overwrite the found record in place. Reading the found
     *  record's id fails in the source when it has none. */
    method Edit(identifier: string, entry: Entry) returns (outcome: Outcome)
      requires FindIndex(events, identifier).Some? ==> events[FindIndex(events, identifier).value].id.Some?
      modifies this
      ensures FindIndex(old(events), identifier).None? ==> outcome == NotFound && events == old(events)
      ensures FindIndex(old(events), identifier).Some? ==>
              var i := FindIndex(old(events), identifier).value;
              var revised := Revised(old(events)[i], entry);
              var verdict := Admit(old(events), revised.date, revised.time, revised.id);
              && (verdict == Accept ==> outcome == Saved && events == old(events)[i := revised])
              && (verdict == BadFormat ==> outcome == InvalidFormat && events == old(events))
              && (verdict == Clash ==> outcome == Conflict && events == old(events))
              && (verdict == Overflow ==> outcome == Crash && events == old(events))
      ensures NoOverlap(old(events)) && UniqueIds(old(events)) ==> NoOverlap(events)
      ensures UniqueIds(old(events)) ==> UniqueIds(events)
    {
      var found := FindIndex(events, identifier);
      if found.None? {
        return NotFound;
      }
      var i := found.value;
      var revised := Revised(events[i], entry);
      var verdict := Admit(events, revised.date, revised.time, revised.id);
      if verdict == BadFormat {
        outcome := InvalidFormat;
      } else if verdict == Overflow {
        outcome := Crash;
      } else if verdict == Clash {
        outcome := Conflict;
      } else {
        if NoOverlap(events) && UniqueIds(events) {
          EditedKeepsNoOverlap(events, i, revised);
        }
        events := events[i := revised];
        outcome := Saved;
      }
    }

    /** `delete_event`: find the record and remove it with `list.remove`,
     *  which drops the first record equal to it, namely the found one. */
    method Delete(identifier: string) returns (outcome: Outcome)
      modifies this
      ensures FindIndex(old(events), identifier).None? ==> outcome == NotFound && events == old(events)
      ensures FindIndex(old(events), identifier).Some? ==>
              var i := FindIndex(old(events), identifier).value;
              outcome == Saved && events == old(events)[..i] + old(events)[i + 1..]
      ensures NoOverlap(old(events)) ==> NoOverlap(events)
    {
      var found := FindIndex(events, identifier);
      if found.None? {
        return NotFound;
      }
      var i := found.value;
      FoundIsFirstOccurrence(events, identifier);
      RemoveFirstAt(events, i);
      if NoOverlap(events) {
        RemovalKeepsNoOverlap(events, i);
      }
      events := RemoveFirst(events, events[i]);
      outcome := Saved;
    }
  }

  // ---------------------------------------------------------------------------
  // Adding
  // ---------------------------------------------------------------------------

  /** A conflict found with no exclusion id means some record was scanned. */
  lemma ClashScansSomeRecord(events: seq<Event>, date: string, time: string)
    requires Admit(events, date, time, None) == Clash
    ensures exists i :: 0 <= i < |events| && Scanned(events[i], None)
  {
    var t := StartOf(date, time).value;
    var i :| 0 <= i < |events| && Blocks(events[i], t, None);
    assert Scanned(events[i], None);
  }

  /** The add `add_event` would crash on: a start in the last hour of
   *  31-12-9999 next to a stored record with an id. */
  lemma LastHourAddCrashes()
    ensures var stored := [Event(Some("ab12cd34"), "Standup", "01-01-2030", "10:00", "", "")];
            Admit(stored, "31-12-9999", "23:30", None) == Overflow
  {
    LastHourRaises();
  }

  /** Appending an accepted record keeps a list of identified records free
   *  of overlaps. */
  lemma AcceptedKeepsNoOverlap(events: seq<Event>, e: Event)
    requires NoOverlap(events) && AllIdentified(events)
    requires Admit(events, e.date, e.time, None) == Accept
    ensures NoOverlap(events + [e])
  {
    var all := events + [e];
    var t := StartOf(e.date, e.time).value;
    forall i, j | 0 <= i < |all| && 0 <= j < |all| && i != j && Start(all[i]).Some? && Start(all[j]).Some?
      ensures !Overlaps(Start(all[i]).value, Start(all[j]).value)
    {
      if i == |events| {
        assert !Blocks(events[j], t, None);
      } else if j == |events| {
        assert !Blocks(events[i], t, None);
      } else {
        assert all[i] == events[i] && all[j] == events[j];
      }
    }
  }

  /** A stored record without an id is skipped by the add check, so an
   *  overlapping add is accepted: the overlap-freedom of the previous
   *  lemma needs every stored record to carry an id. */
  lemma IdlessRecordCanBeOverlapped()
    ensures var stored := [Event(None, "Standup", "01-01-2030", "10:00", "", "")];
            var added := Event(Some("ab12cd34"), "Review", "01-01-2030", "10:30", "", "");
            && Admit(stored, added.date, added.time, None) == Accept
            && !NoOverlap(stored + [added])
  {
    var stored := [Event(None, "Standup", "01-01-2030", "10:00", "", "")];
    var added := Event(Some("ab12cd34"), "Review", "01-01-2030", "10:30", "", "");
    var all := stored + [added];
    HalfHourApart();
    assert all[0] == stored[0] && all[1] == added;
    assert Overlaps(Start(all[0]).value, Start(all[1]).value);
  }

  /** Nothing stops a second event with the same name on the same day: the
   *  add check looks only at the windows. */
  lemma RepeatedNameAccepted()
    ensures var stored := [Event(Some("ab12cd34"), "Sync", "01-01-2030", "14:00", "", "")];
            Admit(stored, "01-01-2030", "09:00", None) == Accept
  {
    var stored := [Event(Some("ab12cd34"), "Sync", "01-01-2030", "14:00", "", "")];
    DateRoundTrip(Date(1, 1, 2030));
    TimeRoundTrip(TimeOfDay(9, 0));
    TimeRoundTrip(TimeOfDay(14, 0));
    assert FormatDate(Date(1, 1, 2030)) == "01-01-2030";
    assert FormatTime(TimeOfDay(9, 0)) == "09:00";
    assert FormatTime(TimeOfDay(14, 0)) == "14:00";
    EndOverflowsAt("01-01-2030", "09:00");
    EndOverflowsAt("01-01-2030", "14:00");
    assert stored[1..] == [];
  }

  // ---------------------------------------------------------------------------
  // Editing
  // ---------------------------------------------------------------------------

  /** An edit with every answer blank proposes the record unchanged. */
  lemma BlankEditKeepsRecord(e: Event)
    ensures Revised(e, Entry("", "", "", "", "")) == e
  {
  }

  /** Each answer is handled on its own: a typed answer replaces exactly
   *  its field and a blank one keeps it, whatever the other answers are. */
  lemma TypedAnswerReplacesField(e: Event, entry: Entry, name: string, date: string, time: string)
    requires name != "" && date != "" && time != ""
    ensures Revised(e, entry.(name := name)) == Revised(e, entry).(name := name)
    ensures Revised(e, entry.(name := "")) == Revised(e, entry).(name := e.name)
    ensures Revised(e, entry.(date := date)) == Revised(e, entry).(date := date)
    ensures Revised(e, entry.(date := "")) == Revised(e, entry).(date := e.date)
    ensures Revised(e, entry.(time := time)) == Revised(e, entry).(time := time)
    ensures Revised(e, entry.(time := "")) == Revised(e, entry).(time := e.time)
    ensures Revised(e, entry).id == e.id
  {
  }

  /** Keeping a record's date and time never conflicts: the record itself
   *  is excluded by its id, and the others do not overlap it. The edit is
   *  accepted unless the check raises. */
  lemma UnchangedScheduleAccepted(events: seq<Event>, i: int)
    requires NoOverlap(events)
    requires 0 <= i < |events| && Start(events[i]).Some?
    ensures Admit(events, events[i].date, events[i].time, events[i].id)
            == if Raises(events, Start(events[i]).value, events[i].id) then Overflow else Accept
  {
    OwnWindowNeverConflicts(events, i);
    ScanConflictIff(events, Start(events[i]).value, events[i].id);
  }

  /** Overwriting a record with an accepted revision under the same id keeps
   *  a list with unique ids free of overlaps. */
  lemma EditedKeepsNoOverlap(events: seq<Event>, i: int, e: Event)
    requires NoOverlap(events) && UniqueIds(events)
    requires 0 <= i < |events| && e.id == events[i].id
    requires Admit(events, e.date, e.time, e.id) == Accept
    ensures NoOverlap(events[i := e])
  {
    var all := events[i := e];
    var t := StartOf(e.date, e.time).value;
    forall a, b | 0 <= a < |all| && 0 <= b < |all| && a != b && Start(all[a]).Some? && Start(all[b]).Some?
      ensures !Overlaps(Start(all[a]).value, Start(all[b]).value)
    {
      if a == i {
        assert events[b].id != e.id by { UniqueOrdered(events, a, b); }
        assert !Blocks(events[b], t, e.id);
      } else if b == i {
        assert events[a].id != e.id by { UniqueOrdered(events, a, b); }
        assert !Blocks(events[a], t, e.id);
      }
    }
  }

  lemma UniqueOrdered(events: seq<Event>, a: int, b: int)
    requires UniqueIds(events)
    requires 0 <= a < |events| && 0 <= b < |events| && a != b
    ensures events[a].id != events[b].id
  {
    if b < a {
      assert events[b].id != events[a].id;
    }
  }

  /** Two records sharing an id hide each other from an edit's check, so an
   *  accepted edit can create an overlap when ids repeat. */
  lemma SharedIdHidesConflict(first: Event, second: Event, revised: Event)
    requires first.id == second.id == revised.id
    requires first.date == second.date == revised.date == "01-01-2030"
    requires first.time == "10:00" && second.time == "12:00" && revised.time == "10:30"
    ensures NoOverlap([first, second])
    ensures Admit([first, second], revised.date, revised.time, revised.id) == Accept
    ensures !NoOverlap([first, second][1 := revised])
  {
    RevisionHalfHourLater(first, revised);
    PairTwoHoursApart(first, second);
    OnlyExcludedAccepted([first, second], revised.date, revised.time, revised.id);
  }

  /** Two records two hours apart on one day do not overlap. */
  lemma PairTwoHoursApart(first: Event, second: Event)
    requires first.date == "01-01-2030" && first.time == "10:00"
    requires second.date == "01-01-2030" && second.time == "12:00"
    ensures NoOverlap([first, second])
  {
    TwoHoursApart();
    assert Start(first).value + 120 == Start(second).value;
  }

  /** Replacing the second record by one half an hour after the first makes
   *  the pair overlap. */
  lemma RevisionHalfHourLater(first: Event, revised: Event)
    requires first.date == "01-01-2030" && first.time == "10:00"
    requires revised.date == "01-01-2030" && revised.time == "10:30"
    ensures StartOf(revised.date, revised.time).Some?
    ensures forall second :: !NoOverlap([first, second][1 := revised])
  {
    HalfHourApart();
    forall second: Event ensures !NoOverlap([first, second][1 := revised]) {
      var after := [first, second][1 := revised];
      assert after[0] == first && after[1] == revised;
      assert Overlaps(Start(after[0]).value, Start(after[1]).value);
    }
  }

  /** Records that carry the excluded id play no part in the check: beside
   *  only such records, a date and time that parse are accepted. */
  lemma OnlyExcludedAccepted(events: seq<Event>, date: string, time: string, exclude: Option<string>)
    requires StartOf(date, time).Some?
    requires forall i :: 0 <= i < |events| ==> events[i].id == exclude
    ensures Admit(events, date, time, exclude) == Accept
  {
    var t := StartOf(date, time).value;
    forall i | 0 <= i < |events|
      ensures !RaisesAt(events, t, exclude, i) && !Blocks(events[i], t, exclude)
    {
    }
  }

  lemma TwoHoursApart()
    ensures StartOf("01-01-2030", "12:00").Some? && StartOf("01-01-2030", "10:00").Some?
    ensures StartOf("01-01-2030", "12:00").value - StartOf("01-01-2030", "10:00").value == 120
  {
    DateRoundTrip(Date(1, 1, 2030));
    TimeRoundTrip(TimeOfDay(10, 0));
    TimeRoundTrip(TimeOfDay(12, 0));
    assert FormatDate(Date(1, 1, 2030)) == "01-01-2030";
    assert FormatTime(TimeOfDay(10, 0)) == "10:00";
    assert FormatTime(TimeOfDay(12, 0)) == "12:00";
  }

  // ---------------------------------------------------------------------------
  // Deleting
  // ---------------------------------------------------------------------------

  /** `list.remove` of a record with no equal record before it takes out
   *  exactly that position. */
  lemma {:induction false} RemoveFirstAt(s: seq<Event>, i: int)
    requires 0 <= i < |s|
    requires forall j :: 0 <= j < i ==> s[j] != s[i]
    ensures RemoveFirst(s, s[i]) == s[..i] + s[i + 1..]
  {
    if i > 0 {
      assert s[0] != s[i];
      var tail := s[1..];
      assert tail[i - 1] == s[i];
      RemoveFirstAt(tail, i - 1);
      assert s[..i] == [s[0]] + tail[..i - 1];
      assert s[i + 1..] == tail[i..];
    }
  }

  /** Removing a record keeps a list free of overlaps. */
  lemma RemovalKeepsNoOverlap(events: seq<Event>, i: int)
    requires NoOverlap(events) && 0 <= i < |events|
    ensures NoOverlap(events[..i] + events[i + 1..])
  {
    var rest := events[..i] + events[i + 1..];
    forall a, b | 0 <= a < |rest| && 0 <= b < |rest| && a != b && Start(rest[a]).Some? && Start(rest[b]).Some?
      ensures !Overlaps(Start(rest[a]).value, Start(rest[b]).value)
    {
      var a', b' := if a < i then a else a + 1, if b < i then b else b + 1;
      assert rest[a] == events[a'] && rest[b] == events[b'];
    }
  }

  /** When a single record answers to the identifier, deleting it leaves
   *  nothing for the identifier to find. */
  lemma DeletedIsGone(events: seq<Event>, identifier: string)
    requires FindIndex(events, identifier).Some?
    requires forall j :: 0 <= j < |events| && Matches(events[j], identifier) ==> j == FindIndex(events, identifier).value
    ensures var i := FindIndex(events, identifier).value;
            FindIndex(events[..i] + events[i + 1..], identifier).None?
  {
    var i := FindIndex(events, identifier).value;
    var rest := events[..i] + events[i + 1..];
    forall k | 0 <= k < |rest|
      ensures !Matches(rest[k], identifier)
    {
      if k < i {
        assert rest[k] == events[k];
      } else {
        assert rest[k] == events[k + 1];
      }
    }
  }

  /** With two records of one name, deleting by that name leaves the second
   *  one to be found. */
  lemma DeleteLeavesNamesake()
    ensures var first := Event(Some("ab12cd34"), "Sync", "01-01-2030", "09:00", "", "");
            var second := Event(Some("ef56ab78"), "sync", "02-01-2030", "09:00", "", "");
            var events := [first, second];
            && FindIndex(events, "SYNC") == Some(0)
            && FindIndex(events[..0] + events[1..], "SYNC") == Some(0)
  {
    var first := Event(Some("ab12cd34"), "Sync", "01-01-2030", "09:00", "", "");
    var second := Event(Some("ef56ab78"), "sync", "02-01-2030", "09:00", "", "");
    assert Lower("Sync") == "sync" && Lower("sync") == "sync" && Lower("SYNC") == "sync";
    assert Matches(first, "SYNC") && Matches(second, "SYNC");
    assert [first, second][..0] + [first, second][1..] == [second];
  }
}
