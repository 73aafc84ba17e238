# Smart Event Manager: scheduling core in Dafny

This project models the scheduling core of the command-line event manager in
`main.py`. Every event is a record with an optional id, a name, a date written
`DD-MM-YYYY`, a time written `HH:MM`, a type and a location. Each event
occupies a 60-minute window that starts at its date and time. The model
covers:

- the lookup by id or name (`find_event`);
- the conflict check (`is_conflict`), which parses a candidate's date and
  time and reports whether its window overlaps that of any record it does
  not skip;
- the free-slot suggester (`suggest_time_slots`), which probes a day hour by
  hour from 00:00 and reports the first three hours that do not conflict;
- the validate-and-commit logic of `add_event`, `edit_event` and
  `delete_event`, over the loaded event list held by a class;
- the queries: the by-day and all-events views of `view_events`, the keyword
  search of `search_events`, and the tomorrow filter of `send_reminders`.

Time is integer arithmetic. A date maps to its day number, as Python's
`date.toordinal()` counts days, and an instant is that day number times 1440
plus the minutes since midnight. Two windows overlap exactly when their
starts are less than 60 minutes apart.

Modules, one per file, in dependency order:

- `Wrappers`: the `Option` type.
- `Calendar`: dates and times, the strict parsers and the formatters, the
  day number, and the one-day and one-hour steps of `datetime + timedelta`.
- `Events`: the record, ASCII lower-casing, and `find_event`.
- `Conflicts`: `is_conflict`, its skip rules, and the no-overlap invariant.
- `Suggestions`: `suggest_time_slots` as a loop, proved against
  specification functions.
- `Registry`: the class `EventRegistry` with `Add`, `Edit` and `Delete`.
- `Queries`: filtering, a stable sort, and the views, search and reminder
  selection.

Three behaviours of the registry code deserve a note:

- `add_event` makes no check on a repeated (name, date) pair.
  `Registry.RepeatedNameAccepted` shows such an add being accepted.
- `delete_event` removes only the first record that answers to the
  identifier, so a namesake stays findable. Nothing answers afterwards only
  when a single record answered: see `Registry.DeletedIsGone` and
  `Registry.DeleteLeavesNamesake`.
- Ids are never checked for uniqueness. The model proves that edits keep
  the list free of overlaps only under `UniqueIds`, and shows the failure
  without it (`Registry.SharedIdHidesConflict`).

`is_conflict` adds 60 minutes to two starts inside its loop: the
candidate's and that of the record in hand. It does so only for a record
that passes the id skip and parses, and only when no earlier record has
already blocked the candidate. Python's `datetime` ends at 23:59 of
31-12-9999, so the check raises an uncaught `OverflowError` exactly when
`Conflicts.Raises` holds: it reaches such a record, and that record's start
or the candidate's start lies in 23:xx of 31-12-9999. With no such record
reached (an empty list, or only skipped or unparseable records), a
candidate in that hour gets a verdict as usual. The model keeps this crash:
`Conflicts.IsConflict` returns None exactly when `Conflicts.Raises` holds,
an add or an edit then ends in `Crash`, and the suggester stops at the
probe whose check raises.

## Model

| member | source | states |
|---|---|---|
| Calendar.NextDate | main.py:411 | The day after a valid date is a valid date; there is none exactly after 31-12-9999, where Python's date arithmetic overflows |
| Calendar.NextDateIsNextDay | main.py:411 | `date + timedelta(days=1)` is the date whose day number is one larger |
| Calendar.AddHour | main.py:164 | Adding 60 minutes keeps the minute and gives a valid date and time; it leaves the calendar exactly from 23:xx of 31-12-9999 |
| Calendar.AddHourIsHourLater | main.py:164 | A step of `timedelta(minutes=60)` that stays in the calendar moves the instant exactly 60 minutes on, across day, month and year ends |
| Calendar.OrdinalOrder | main.py:141 | Day numbers order dates as Python compares them (year, then month, then day), in both directions, and equal day numbers mean equal dates |
| Calendar.DaysBeforeYearClosedForm | main.py:119-121 | The day count before a year, summed year by year, equals the Gregorian closed form that counts the leap years |
| Calendar.Ordinal | main.py:119-121 | The day number of a date, as `date.toordinal()` counts it; `Calendar.OrdinalOrder` and `Calendar.DaysBeforeYearClosedForm` state what it means |
| Calendar.Instant | main.py:135-141 | Minutes since the start of the calendar, 1440 to a day; `Calendar.AddHourIsHourLater` and `Queries.ChronoKeyIsLexicographic` state what it means |
| Calendar.HourLaterPassesEnd | main.py:137-139 | Adding 60 minutes overflows exactly when the result would pass 23:59 of 31-12-9999, i.e. from 23:00 of that day on, where `AddHour` has no result |
| Calendar.ParseDate | main.py:176 | `strptime(s, "%d-%m-%Y")`, read strictly, only ever yields a valid calendar date |
| Calendar.ParseTime | main.py:177 | `strptime(s, "%H:%M")`, read strictly, only ever yields a valid time of day |
| Calendar.FormatDate | main.py:158 | `strftime("%d-%m-%Y")`; `Calendar.DateRoundTrip` and `Calendar.ParseDateIff` make it the inverse of the date parser |
| Calendar.FormatTime | main.py:159 | `strftime("%H:%M")`; `Calendar.TimeRoundTrip` and `Calendar.ParseTimeIff` make it the inverse of the time parser |
| Calendar.DateRoundTrip | main.py:158 | Parsing the `strftime("%d-%m-%Y")` text of a date gives the date back |
| Calendar.TimeRoundTrip | main.py:159 | Parsing the `strftime("%H:%M")` text of a time gives the time back |
| Calendar.ParsedDateIsCanonical | main.py:176 | Text that parses as a date is exactly that date's formatted text |
| Calendar.ParsedTimeIsCanonical | main.py:177 | Text that parses as a time is exactly that time's formatted text |
| Calendar.ParseDateIff | main.py:176 | Parsing and formatting dates are inverse bijections between valid dates and canonical text |
| Calendar.ParseTimeIff | main.py:177 | Parsing and formatting times are inverse bijections between valid times and canonical text |
| Calendar.ParseStamp | main.py:119-121 | `strptime(s, "%d-%m-%Y %H:%M")`, read strictly; `Calendar.StampOfFields` states what it accepts |
| Calendar.SpaceFailsDate | main.py:119-121 | Text with a space in it never parses as a date |
| Calendar.SpaceFailsTime | main.py:119-121 | Text with a space in it never parses as a time |
| Calendar.StampOfFields | main.py:119-121 | Parsing `f"{date} {time}"` with `"%d-%m-%Y %H:%M"` succeeds exactly when the date and the time parse on their own, and yields the same values |
| Events.Lower | main.py:106 | Lower-casing keeps the length, leaves no ASCII capital, and changes no other character |
| Events.LowerEqualIff | main.py:106 | Two texts are equal once lower-cased exactly when they have the same length and agree letter by letter up to ASCII case |
| Events.Matches | main.py:106 | A record answers to an identifier through its id or its name ignoring case; `Events.FindIndex` and `Events.NameCanShadowId` state its use |
| Events.FindIndex | main.py:105-108 | The position found holds a record whose id equals the identifier or whose lower-cased name equals it lower-cased; no earlier record answers; and there is no result exactly when no record answers |
| Events.FindEvent | main.py:100-108 | `find_event` returns a record exactly when some record answers to the identifier; the record returned answers to it, and no earlier record does |
| Events.FoundIsFirstOccurrence | main.py:255 | No record before the found one equals it, so `list.remove` takes out the found position |
| Events.NameCanShadowId | main.py:106 | Ids and names share one namespace: an earlier record named like a later record's id is the one found |
| Conflicts.StartOf | main.py:118-123 | The candidate's start exists exactly when its date and its time both parse |
| Conflicts.StartOfStamp | main.py:119-121 | The start is the instant of the combined `"DD-MM-YYYY HH:MM"` stamp the source parses |
| Conflicts.Overlaps | main.py:135-142 | `max(start) < min(start + 60)` holds exactly when the two starts are less than 60 minutes apart |
| Conflicts.Blocks | main.py:125-142 | A record that the loop does not skip and whose window overlaps the candidate's; `Conflicts.ScanConflictIff` ties it to the loop |
| Conflicts.ScanConflict | main.py:125-143 | The verdict the loop reaches when it does not raise; `Conflicts.ScanConflictIff` states it |
| Conflicts.EndOverflows | main.py:137-139 | `start + timedelta(minutes=60)` raises OverflowError; `Conflicts.EndOverflowsAt` proves this is exactly a start in 23:xx of 31-12-9999 |
| Conflicts.EndOverflowsAt | main.py:137-139 | For a parsed start, adding 60 minutes overflows exactly in the last hour of 31-12-9999 |
| Conflicts.Scan | main.py:125-143 | The loop as Python runs it, raising on the first record it does not skip when either end overflows; `Conflicts.ScanRaisesIff` states it |
| Conflicts.RaisesCons | main.py:125-139 | Whether the loop raises is decided on the first record, then on the rest |
| Conflicts.RaisesAt | main.py:125-139 | The loop raises at a given record: it does not skip it, that record's end or the candidate's end overflows, and no earlier record blocked the candidate; `Conflicts.ScanRaisesIff` ties it to the loop |
| Conflicts.Raises | main.py:125-139 | The loop raises at some record; `Conflicts.ScanRaisesIff` proves the loop raises exactly then |
| Conflicts.ScanRaisesIff | main.py:125-143 | The loop raises exactly when some record it does not skip, before any earlier record blocks the candidate, has an end or meets a candidate end that overflows; otherwise it returns the verdict of `ScanConflict` |
| Conflicts.EndingCandidateRaises | main.py:139 | A candidate in the last hour of 31-12-9999 makes the loop raise exactly when some record is not skipped |
| Conflicts.ScanConflictIff | main.py:125-143 | The scan reports a conflict exactly when some record blocks the window, i.e. its id differs from the excluded one, its date and time parse, and its window overlaps |
| Conflicts.IsConflict | main.py:110-143 | A candidate whose date or time does not parse never conflicts; otherwise the call raises exactly when `Raises` holds, and when it returns it reports whether some record blocks the candidate |
| Conflicts.IdlessRecordNeverBlocks | main.py:126-127 | With no exclusion id, a record without an id is skipped (`None == None`), so it never blocks and adding it to the list changes no verdict |
| Conflicts.ExcludedRecordIrrelevant | main.py:126-127 | Removing a record whose id is the excluded one leaves the verdict unchanged |
| Conflicts.ScanCons | main.py:125-142 | The scan decides on the first record, then on the rest |
| Conflicts.ScanSingle | main.py:125-143 | Against one record the verdict is whether that record blocks |
| Conflicts.ConflictIsSymmetric | main.py:135-141 | Between two records that carry ids, each check raises, conflicts or passes exactly when the other does |
| Conflicts.ConflictAsymmetricWithoutId | main.py:126 | On 01-01-2030, any id-less record at 10:00 does not block a 10:30 candidate, while any 10:30 record with an id does block a 10:00 candidate |
| Conflicts.HalfHourApart | main.py:135-141 | On 01-01-2030, 10:30 starts 30 minutes after 10:00 and 11:00 starts 60 minutes after it; none of the three windows ends past the calendar |
| Conflicts.OverlapBoundaryExamples | main.py:141-142 | A 10:30 candidate conflicts with a 10:00 record; an 11:00 candidate, which only touches it, does not |
| Conflicts.LastHalfHour | main.py:137-139 | 23:30 of 31-12-9999 parses, and adding 60 minutes to it overflows |
| Conflicts.LastHourRaises | main.py:137-139 | A check raises both for a candidate at 23:30 of 31-12-9999 beside a record of 2030, and for a 2030 candidate beside a record at that hour |
| Conflicts.OwnWindowNeverConflicts | main.py:126-127 | In a list without overlaps, a record's own window never conflicts when its id is excluded |
| Suggestions.MockConflict | main.py:156-161 | Checking the mock event built from the probe's formatted date and time runs the scan at the probe's own instant |
| Suggestions.OneRecordBlocksAtMostTwoHours | main.py:141 | A 60-minute window overlaps at most two hourly starts |
| Suggestions.BlockedHoursBound | main.py:155-164 | However far the scan goes, at most two hours per record are blocked |
| Suggestions.BlockedCountBound | main.py:155-164 | The blocked hours counted during the scan never exceed twice the number of records |
| Suggestions.HourAt | main.py:151-153 | The k-th probe, reached from 00:00 by k hourly steps, is a valid on-the-hour date and time when it exists |
| Suggestions.HourAtInstant | main.py:164 | The k-th probe starts exactly k hours after 00:00 of the day |
| Suggestions.HourAtPrefix | main.py:164 | Once a step has left the calendar, every later probe has too |
| Suggestions.CalendarEnd | main.py:164 | The step that leaves the calendar is the one after 23:00 of 31-12-9999 |
| Suggestions.MockIsFree | main.py:156-161 | A probe's check raises exactly when `ProbeRaises` holds; otherwise the probe is free exactly when no record, with none excluded, blocks its hour |
| Suggestions.FreeAmong | main.py:155-164 | Among n probes, at most n are reported |
| Suggestions.FreeAmongSound | main.py:161-163 | Every reported hour is on the hour, lies among the hours probed, and has no conflict; the reported hours are strictly ascending |
| Suggestions.FreeAmongComplete | main.py:155-164 | Among the hours probed, an hour is reported exactly when it has no conflict, so the slots are the first free hours |
| Suggestions.FreeOrBusy | main.py:161-164 | Each probed hour is either reported or blocked |
| Suggestions.ScanBound | main.py:155 | The number of probes is at most twice the number of records plus the number reported |
| Suggestions.ScanningStep | main.py:156-164 | A probe that does not raise keeps the scan invariant: the slots are the free hours so far, no probe so far raised, the probe bound holds, and the next probe is one hour on |
| Suggestions.ProbeHour | main.py:156-164 | The loop body either stops where the probe's check raises, or reports the probe when it is free and steps one hour, keeping the scan invariant |
| Suggestions.SuggestTimeSlots | main.py:145-164 | The slots are the free hours among the probes made, none of which raised, and the last probe was needed; at most 2 × records + 3 hours are probed; the scan ends in OverflowError exactly when an hour step leaves the calendar or, short of three slots, the next probe's check raises; otherwise it finds three slots |
| Suggestions.RaisingHourUnreported | main.py:156-161 | An hour whose conflict check raises is absent from the slots gathered by probes that did not raise |
| Suggestions.NoSlotInLastHour | main.py:156-164 | When some record is not skipped, as after the conflict that leads to suggestions, no probe that completes reports 23:00 of 31-12-9999 |
| Registry.Admit | main.py:175-180 | The fields are refused as malformed exactly when the date or the time does not parse; the check raises exactly when they parse and `Raises` holds; they are accepted exactly when they parse, the check does not raise, and no record blocks their window |
| Registry.ClashScansSomeRecord | main.py:191 | A conflict found with no exclusion id means the check did not skip some record |
| Registry.LastHourAddCrashes | main.py:191 | Adding at 23:30 of 31-12-9999 beside a stored record with an id crashes in the conflict check |
| Registry.RemoveFirst | main.py:255 | `list.remove` drops one element |
| Registry.EventRegistry.constructor | main.py:168 | The registry starts with the loaded list |
| Registry.EventRegistry.Add | main.py:166-203 | A malformed date or time, a conflict, or a crash in the conflict check leaves the list unchanged; on a conflict the first free hours from 00:00 of that day on are proposed (the scan may pass midnight), never 23:00 of 31-12-9999, up to the suggester's own crash; otherwise exactly the new record under the fresh id is appended; a list of identified records stays free of overlaps |
| Registry.EventRegistry.Edit | main.py:205-244 | Without a match, with a malformed revision, with a conflict against another record, or with a crash in the conflict check, the list is unchanged; otherwise only the found position changes, to the revised record under the same id; when the list's ids are unique, overlap-freedom and unique ids are kept |
| Registry.EventRegistry.Delete | main.py:246-257 | Without a match the list is unchanged; otherwise exactly the found record is removed and the others keep their order; overlap-freedom is kept |
| Registry.AcceptedKeepsNoOverlap | main.py:191-201 | Appending an accepted record to a list of identified records without overlaps leaves it without overlaps |
| Registry.IdlessRecordCanBeOverlapped | main.py:191-201 | An add overlapping an id-less record is accepted and creates an overlap |
| Registry.RepeatedNameAccepted | main.py:191-201 | A second "Sync" on 01-01-2030, at 09:00 beside one at 14:00, is accepted: there is no (name, date) check |
| Registry.Created | main.py:182-189 | The record an add builds from the typed values under the fresh id; `Registry.EventRegistry.Add` appends exactly it |
| Registry.BlankEditKeepsRecord | main.py:216-229 | An edit answered with blanks proposes the record unchanged |
| Registry.OrKeep | main.py:216-220 | `input(...) or current`: a blank answer keeps the current value; `Registry.BlankEditKeepsRecord` states it for a whole record |
| Registry.Revised | main.py:216-229 | The record an edit proposes, keeping the found record's id; `Registry.BlankEditKeepsRecord` and `Registry.TypedAnswerReplacesField` state what it does |
| Registry.TypedAnswerReplacesField | main.py:216-229 | Whatever the other answers, a typed name, date or time replaces exactly that field and a blank one keeps the record's own value; the id is always kept |
| Registry.UnchangedScheduleAccepted | main.py:238 | In a list without overlaps, keeping a record's date and time is never refused as a conflict: it is accepted unless the check raises |
| Registry.EditedKeepsNoOverlap | main.py:238-242 | With unique ids, overwriting a record with an accepted revision keeps the list free of overlaps |
| Registry.SharedIdHidesConflict | main.py:238 | Any three records sharing one id (None included) at 10:00, 12:00 and 10:30 on 01-01-2030: the first two do not overlap, the third is accepted as a revision of the second, and writing it in creates an overlap |
| Registry.OnlyExcludedAccepted | main.py:126-127 | A date and time that parse, checked beside records that all carry the excluded id, are accepted |
| Registry.RemoveFirstAt | main.py:255 | Removing the first element equal to a record with no equal record before it removes exactly its position |
| Registry.RemovalKeepsNoOverlap | main.py:255 | Removing a record keeps a list free of overlaps |
| Registry.DeletedIsGone | main.py:250-255 | When a single record answers to the identifier, nothing answers to it after the delete |
| Registry.DeleteLeavesNamesake | main.py:250-255 | With two records named "Sync" and "sync", deleting "SYNC" leaves the second to be found |
| Queries.FilterKeeps | main.py:276-278 | A comprehension keeps only records that meet its condition, and no more records than it reads |
| Queries.FilterCount | main.py:276-278 | A comprehension keeps each record meeting its condition as often as it occurs, and no other |
| Queries.FilterAppend | main.py:409-412 | A comprehension over two parts is the two results in order, so records keep their relative order |
| Queries.FilterEmptyIff | main.py:279 | The comprehension is empty exactly when no record meets the condition |
| Queries.Filter | main.py:276-278 | A list comprehension with a condition; `Queries.FilterKeeps`, `Queries.FilterCount`, `Queries.FilterAppend` and `Queries.FilterEmptyIff` state what it keeps |
| Queries.SortBy | main.py:284 | `sorted` with a key keeps the length; `Queries.SortBySorted`, `Queries.SortByPermutes` and `Queries.SortByStable` state the rest |
| Queries.SortBySorted | main.py:284 | `sorted` orders by the key |
| Queries.SortByPermutes | main.py:289-295 | `sorted` only rearranges: every record comes out as often as it went in |
| Queries.SortByStable | main.py:289-295 | `sorted` is stable: records with equal keys keep their order |
| Queries.SortedFixpoint | main.py:284 | A list already in key order comes out unchanged |
| Queries.TimeKey | main.py:284 | The day view's sort key, the parsed time as minutes after midnight; `Queries.SortBySorted` and `Queries.DayViewListsTheDay` state the order it gives |
| Queries.ChronoKey | main.py:291-294 | The (date, time) sort key of the all-events view and of the search (main.py:317-320), as one instant; `Queries.ChronoKeyIsLexicographic` proves it orders records as the pair does |
| Queries.ChronoKeyIsLexicographic | main.py:291-294 | The instant key compares records as the (date, time) pair compares, first by date, then by time |
| Queries.ViewEvents | main.py:259-295 | No records gives the "no events" message; an unparseable target date gives the error; a day view is empty exactly when no record is on that day, and otherwise lists that day's records by time; a blank target lists every record by date and time |
| Queries.OnDayIsSameText | main.py:277 | A record is on the target day exactly when its date text equals the target text |
| Queries.OnDay | main.py:277 | The condition of the day view; `Queries.OnDayIsSameText` and `Queries.DayViewListsTheDay` state what it selects |
| Queries.DayViewListsTheDay | main.py:276-284 | The day view shows each record of that day as often as it is stored, no other record, and records at the same time in stored order |
| Queries.AllViewIsStable | main.py:289-295 | Records at the same date and time keep their stored order in the all-events view |
| Queries.ContainsIff | main.py:308 | `keyword in text` holds exactly when the keyword occurs at some position of the text |
| Queries.Contains | main.py:308 | `keyword in text`; `Queries.ContainsIff` states it |
| Queries.Hit | main.py:308 | The search condition on name or type, ignoring case; `Queries.Search` and `Queries.SearchIgnoresCase` state what it selects |
| Queries.Search | main.py:304-321 | The search finds nothing exactly when no record's name or type contains the keyword, ignoring case; otherwise it lists exactly those records, ordered by date and time |
| Queries.SearchIsStable | main.py:315-321 | Hits at the same date and time keep their stored order in the search results |
| Queries.LowerIdempotent | main.py:308 | Lower-casing twice is lower-casing once |
| Queries.SearchIgnoresCase | main.py:308 | Searching for the lower-cased keyword gives the same result as the keyword |
| Queries.EmptyKeywordFindsAll | main.py:308 | The empty keyword finds every record |
| Queries.Reminders | main.py:409-412 | Every record selected for reminders is dated the day after today |
| Queries.RemindersAreTomorrows | main.py:411 | A record is selected, as often as it is stored, exactly when its day number is one past today's |
| Queries.DatedOn | main.py:411 | The reminder condition, a record dated a given day; `Queries.RemindersAreTomorrows` states what it selects |
| Queries.RemindersKeepOrder | main.py:409-412 | The reminder selection keeps stored order |

## Left out

- File persistence (`load_data`, `save_data`, `export_events_to_json`), the Excel attendee list, e-mail sending, the menu loop and the admin password are not part of this model. The registry takes the loaded list in its constructor and never writes it back.
- `input()` and `print` are replaced by parameters and results. The typed values arrive as an `Entry`, and each operation returns the message it would print as an `Outcome` or a `View`.
- The fresh id (`uuid.uuid4()`) and today's date are parameters. As in the source, the fresh id is not checked for collisions.
- Calendar.ParseDate: reads only the canonical two-digit day and month and four-digit year. Python's `strptime` also accepts single-digit fields, which are not modelled.
- Calendar.ParseTime: reads only the canonical `HH:MM`, with the same limit on `strptime` leniency.
- Calendar.ParseStamp: reads the joint of `"%d-%m-%Y %H:%M"` as exactly one space. Python's `strptime` matches any run of whitespace there, so a stored date ending in whitespace or a stored time starting with it (`" 10:00"`) still parses in the conflict check, where the model skips that record. Only records edited by hand in the file can have such fields: add and edit validate the date and the time each on its own, and for fields that pass, the two readings agree (`Calendar.StampOfFields`).
- Events.Lower: lower-cases ASCII letters only. Python's `str.lower` also folds other alphabets.
- Events.Matches: a record always has a name here. A stored record missing the `name` key, or an empty record (which `edit_event` and `delete_event` treat as not found), is not modelled.
- Suggestions.SuggestTimeSlots: returns the free hours as date-times; the source prints their `HH:MM` text. Python raises an uncaught `OverflowError` when an hourly step passes 23:00 of 31-12-9999, or when a probe's conflict check raises. The model stops with `overflow` set and returns the slots printed before that point.
- Registry.EventRegistry.Edit: requires the found record to carry an id. The source fails with a `KeyError` reading `event_to_edit['id']` when the key is absent. A record stored with `"id": null` instead reads as None without error and is edited. `Option<string>` does not tell these two apart, so the model treats every id-less record as the first kind.
- Queries.ViewEvents: requires the records it reads without a guard to parse. The source raises `ValueError` otherwise: every record for the all-events view; non-blank dates and same-day times for a day view.
- Queries.Search: requires the matching records to parse, because the source sorts them by parsed date and time without a guard.
- Queries.Reminders: requires every stored date to parse and today not to be 31-12-9999. The source raises on an unparseable date, and on `date.today() + timedelta(days=1)` at 31-12-9999. With no records, the comprehension never computes that sum and the source does not raise, so the second requirement is stronger than the source for an empty list. A record missing its `date` key, read through the `'01-01-2000'` default, is not modelled.
- Queries.ViewEvents: sorts by one integer key, the instant. The source sorts by the pair (date, time). `Queries.ChronoKeyIsLexicographic` proves that the two keys compare records alike, so a stable sort orders them the same way.
- The text each view prints per record is not modelled. The views return the records in display order.
- Registry.EventRegistry.Edit: `event_to_edit.update(...)` changes the dictionary inside the list in place. The model replaces the record at the found position, which is the same thing for a list loaded from JSON, where no two positions share one dictionary. Aliasing between positions is not modelled.
