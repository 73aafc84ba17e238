/** The read-only queries: the list comprehensions and `sorted` calls of
 *  `view_events` and `search_events`, and the tomorrow filter of
 *  `send_reminders`. The listing, search and reminder texts are left to
 *  the caller; the queries return the records they would show.
 */
module Queries {
  import opened Wrappers
  import opened Calendar
  import opened Events
  import opened Conflicts

  // ---------------------------------------------------------------------------
  // Filtering, as a list comprehension with a condition does
  // ---------------------------------------------------------------------------

  /** `[e for e in s if keep(e)]`. */
  function Filter(s: seq<Event>, keep: Event -> bool): (r: seq<Event>)
  {
    if s == [] then []
    else (if keep(s[0]) then [s[0]] else []) + Filter(s[1..], keep)
  }

  /** Every record the filter keeps meets the condition. */
  lemma {:induction false} FilterKeeps(s: seq<Event>, keep: Event -> bool)
    ensures |Filter(s, keep)| <= |s|
    ensures forall i :: 0 <= i < |Filter(s, keep)| ==> keep(Filter(s, keep)[i])
  {
    if s != [] {
      FilterKeeps(s[1..], keep);
      FilterCons(s[0], s[1..], keep);
      assert s == [s[0]] + s[1..];
    }
  }

  /** The filter keeps every kept record as often as it occurs, and no other. */
  lemma {:induction false} FilterCount(s: seq<Event>, keep: Event -> bool, x: Event)
    ensures multiset(Filter(s, keep))[x] == if keep(x) then multiset(s)[x] else 0
  {
    if s != [] {
      FilterCount(s[1..], keep, x);
      assert s == [s[0]] + s[1..];
    }
  }

  /** The filter decides on the first record, then on the rest. */
  lemma FilterCons(x: Event, s: seq<Event>, keep: Event -> bool)
    ensures Filter([x] + s, keep) == (if keep(x) then [x] else []) + Filter(s, keep)
  {
    assert ([x] + s)[0] == x && ([x] + s)[1..] == s;
  }

  lemma AppendAssociates(x: seq<Event>, y: seq<Event>, z: seq<Event>)
    ensures x + (y + z) == (x + y) + z
  {
  }

  /** Filtering a concatenation filters each part in place: records keep
   *  their relative order. */
  lemma {:induction false} FilterAppend(a: seq<Event>, b: seq<Event>, keep: Event -> bool)
    ensures Filter(a + b, keep) == Filter(a, keep) + Filter(b, keep)
  {
    if a == [] {
      assert a + b == b;
    } else {
      var rest := a[1..];
      FilterAppend(rest, b, keep);
      assert a == [a[0]] + rest;
      assert a + b == [a[0]] + (rest + b);
      FilterCons(a[0], rest + b, keep);
      FilterCons(a[0], rest, keep);
      AppendAssociates(if keep(a[0]) then [a[0]] else [], Filter(rest, keep), Filter(b, keep));
    }
  }

  /** The filter is empty exactly when no record is kept. */
  lemma {:induction false} FilterEmptyIff(s: seq<Event>, keep: Event -> bool)
    ensures Filter(s, keep) == [] <==> forall i :: 0 <= i < |s| ==> !keep(s[i])
  {
    if s != [] {
      FilterEmptyIff(s[1..], keep);
      if !keep(s[0]) {
        assert forall i :: 1 <= i < |s| ==> s[i] == s[1..][i - 1];
      }
    }
  }

  /** Conditions that agree on every record filter alike. */
  lemma {:induction false} FilterAgree(s: seq<Event>, p: Event -> bool, q: Event -> bool)
    requires forall e :: p(e) == q(e)
    ensures Filter(s, p) == Filter(s, q)
  {
    if s != [] {
      FilterAgree(s[1..], p, q);
    }
  }

  /** A condition every record meets keeps the whole list. */
  lemma {:induction false} FilterKeepsAll(s: seq<Event>, keep: Event -> bool)
    requires forall i :: 0 <= i < |s| ==> keep(s[i])
    ensures Filter(s, keep) == s
  {
    if s != [] {
      FilterKeepsAll(s[1..], keep);
      assert s == [s[0]] + s[1..];
    }
  }

  // ---------------------------------------------------------------------------
  // Stable sorting by a key, as `sorted(s, key=...)` does
  // ---------------------------------------------------------------------------

  predicate SortedBy(s: seq<Event>, key: Event -> int) {
    forall i, j :: 0 <= i < j < |s| ==> key(s[i]) <= key(s[j])
  }

  /** Put `x` in front of the first record whose key is not smaller. */
  function Insert(x: Event, s: seq<Event>, key: Event -> int): (r: seq<Event>)
    ensures |r| == |s| + 1
  {
    if s == [] || key(x) <= key(s[0]) then [x] + s
    else [s[0]] + Insert(x, s[1..], key)
  }

  /** Insertion sort from the back: the head goes in front of every later
   *  record with the same key, which makes the sort stable. */
  function SortBy(s: seq<Event>, key: Event -> int): (r: seq<Event>)
    ensures |r| == |s|
  {
    if s == [] then [] else Insert(s[0], SortBy(s[1..], key), key)
  }

  /** The records of key `k`. */
  function WithKey(key: Event -> int, k: int): Event -> bool {
    (e: Event) => key(e) == k
  }

  /** Inserting keeps every key at least `b` when it was so before. */
  lemma {:induction false} InsertAbove(x: Event, s: seq<Event>, key: Event -> int, b: int)
    requires b <= key(x) && forall i :: 0 <= i < |s| ==> b <= key(s[i])
    ensures forall i :: 0 <= i < |s| + 1 ==> b <= key(Insert(x, s, key)[i])
  {
    if s != [] && key(s[0]) < key(x) {
      InsertAbove(x, s[1..], key, b);
    }
  }

  lemma {:induction false} InsertPermutes(x: Event, s: seq<Event>, key: Event -> int)
    ensures multiset(Insert(x, s, key)) == multiset(s) + multiset{x}
  {
    if s != [] && key(s[0]) < key(x) {
      InsertPermutes(x, s[1..], key);
      assert s == [s[0]] + s[1..];
    }
  }

  lemma {:induction false} InsertSorted(x: Event, s: seq<Event>, key: Event -> int)
    requires SortedBy(s, key)
    ensures SortedBy(Insert(x, s, key), key)
  {
    if s != [] && key(s[0]) < key(x) {
      InsertSorted(x, s[1..], key);
      InsertAbove(x, s[1..], key, key(s[0]));
    }
  }

  /** The sort orders by the key. */
  lemma {:induction false} SortBySorted(s: seq<Event>, key: Event -> int)
    ensures SortedBy(SortBy(s, key), key)
  {
    if s != [] {
      SortBySorted(s[1..], key);
      InsertSorted(s[0], SortBy(s[1..], key), key);
    }
  }

  /** The sort only rearranges: each record comes out as often as it went in. */
  lemma {:induction false} SortByPermutes(s: seq<Event>, key: Event -> int)
    ensures multiset(SortBy(s, key)) == multiset(s)
  {
    if s != [] {
      SortByPermutes(s[1..], key);
      InsertPermutes(s[0], SortBy(s[1..], key), key);
      assert s == [s[0]] + s[1..];
    }
  }

  /** Every record ahead of `x`'s place has a smaller key, so among the
   *  records of `x`'s key, `x` comes first. */
  lemma {:induction false} InsertStable(x: Event, s: seq<Event>, key: Event -> int, k: int)
    ensures Filter(Insert(x, s, key), WithKey(key, k)) == Filter([x] + s, WithKey(key, k))
  {
    if s != [] && key(s[0]) < key(x) {
      InsertStable(x, s[1..], key, k);
      var r := Insert(x, s[1..], key);
      assert Insert(x, s, key) == [s[0]] + r;
      assert ([s[0]] + r)[1..] == r;
      assert ([x] + s[1..])[1..] == s[1..];
      assert ([x] + s)[1..] == s;
      if key(x) == k {
        assert s == [s[0]] + s[1..];
        assert Filter([x] + s, WithKey(key, k)) == [x] + Filter(s, WithKey(key, k));
        assert Filter(s, WithKey(key, k)) == Filter(s[1..], WithKey(key, k));
      } else {
        assert Filter([x] + s[1..], WithKey(key, k)) == Filter(s[1..], WithKey(key, k));
      }
    }
  }

  /** Stability: the records of each key come out in their original order. */
  lemma {:induction false} SortByStable(s: seq<Event>, key: Event -> int, k: int)
    ensures Filter(SortBy(s, key), WithKey(key, k)) == Filter(s, WithKey(key, k))
  {
    if s != [] {
      SortByStable(s[1..], key, k);
      InsertStable(s[0], SortBy(s[1..], key), key, k);
      FilterAppend([s[0]], SortBy(s[1..], key), WithKey(key, k));
      FilterAppend([s[0]], s[1..], WithKey(key, k));
      assert s == [s[0]] + s[1..];
    }
  }

  /** A list already in key order comes out as it went in. */
  lemma {:induction false} SortedFixpoint(s: seq<Event>, key: Event -> int)
    requires SortedBy(s, key)
    ensures SortBy(s, key) == s
  {
    if s != [] {
      SortedFixpoint(s[1..], key);
      assert s == [s[0]] + s[1..];
    }
  }

  // ---------------------------------------------------------------------------
  // Sort keys
  // ---------------------------------------------------------------------------

  function Minutes(t: TimeOfDay): int {
    t.hour * 60 + t.minute
  }

  /** The key of the by-day view, `strptime(time, "%H:%M")`, as minutes
   *  after midnight (0 for a time that does not parse, which the view
   *  never reads). */
  function TimeKey(e: Event): int {
    match ParseTime(e.time)
    case Some(t) => Minutes(t)
    case None => 0
  }

  /** The key of the all-events view and of the search, the pair of parsed
   *  date and time, as the one instant they name. */
  function ChronoKey(e: Event): int {
    match Start(e)
    case Some(t) => t
    case None => 0
  }

  /** The record has a start, i.e. both its date and its time parse; the
   *  source reads such records without a guard. */
  predicate Schedulable(e: Event) {
    Start(e).Some?
  }

  /** The instant key compares records as the (date, time) pairs compare:
   *  first by calendar date, then by time of day. */
  lemma ChronoKeyIsLexicographic(a: Event, b: Event)
    requires Schedulable(a) && Schedulable(b)
    ensures var da, db := ParseDate(a.date).value, ParseDate(b.date).value;
            var ta, tb := ParseTime(a.time).value, ParseTime(b.time).value;
            && (ChronoKey(a) < ChronoKey(b) <==> DateBefore(da, db) || (da == db && Minutes(ta) < Minutes(tb)))
            && (ChronoKey(a) == ChronoKey(b) <==> da == db && ta == tb)
  {
    var da, db := ParseDate(a.date).value, ParseDate(b.date).value;
    OrdinalOrder(da, db);
    OrdinalOrder(db, da);
  }

  // ---------------------------------------------------------------------------
  // view_events
  // ---------------------------------------------------------------------------

  /** What a query shows: the "no events" message, the invalid-date
   *  message, the "none found" message, or a listing in display order. */
  datatype View = NoEvents | InvalidDate | NoneFound | Listing(events: seq<Event>)

  /** `e.get('date') and strptime(e['date']).date() == day`. */
  function OnDay(day: Date): Event -> bool {
    (e: Event) => e.date != "" && ParseDate(e.date) == Some(day)
  }

  /** The records the view reads without a guard parse: every record for
   *  the all-events view; for a day view, every non-blank date, and the
   *  time of every record on that day. */
  predicate ViewReadable(events: seq<Event>, target: string) {
    && (target == "" ==> forall i :: 0 <= i < |events| ==> Schedulable(events[i]))
    && (target != "" && ParseDate(target).Some? ==>
          forall i :: 0 <= i < |events| && events[i].date != "" ==>
            ParseDate(events[i].date).Some?
            && (ParseDate(events[i].date) == ParseDate(target) ==> ParseTime(events[i].time).Some?))
  }

  /** `view_events(target)`: a blank target lists every record by date and
   *  time; otherwise the target must parse, and the records of that day
   *  are listed by time. */
  function ViewEvents(events: seq<Event>, target: string): (r: View)
    requires ViewReadable(events, target)
    ensures events == [] <==> r == NoEvents
    ensures r == InvalidDate <==> events != [] && target != "" && ParseDate(target).None?
    ensures target == "" && events != [] ==>
            r.Listing? && SortedBy(r.events, ChronoKey) && multiset(r.events) == multiset(events)
    ensures target != "" && ParseDate(target).Some? && events != [] ==>
            var day := ParseDate(target).value;
            && (r == NoneFound <==> forall i :: 0 <= i < |events| ==> !OnDay(day)(events[i]))
            && (r.Listing? ==> SortedBy(r.events, TimeKey)
                               && multiset(r.events) == multiset(Filter(events, OnDay(day))))
  {
    if events == [] then NoEvents
    else if target != "" then
      match ParseDate(target)
      case None => InvalidDate
      case Some(day) =>
        var onDay := Filter(events, OnDay(day));
        FilterEmptyIff(events, OnDay(day));
        SortBySorted(onDay, TimeKey);
        SortByPermutes(onDay, TimeKey);
        if onDay == [] then NoneFound else Listing(SortBy(onDay, TimeKey))
    else
      SortBySorted(events, ChronoKey);
      SortByPermutes(events, ChronoKey);
      Listing(SortBy(events, ChronoKey))
  }

  /** Under the strict format a record is on the target day exactly when
   *  its date text is the target's text. */
  lemma OnDayIsSameText(e: Event, target: string)
    requires ParseDate(target).Some?
    ensures OnDay(ParseDate(target).value)(e) <==> e.date == target
  {
    var day := ParseDate(target).value;
    ParseDateIff(target, day);
    ParseDateIff(e.date, day);
  }

  /** The day view lists exactly the records of that day, each as often as
   *  it is stored, ordered by time, and records at the same time in their
   *  stored order. */
  lemma DayViewListsTheDay(events: seq<Event>, target: string)
    requires ViewReadable(events, target)
    requires target != "" && ParseDate(target).Some?
    requires ViewEvents(events, target).Listing?
    ensures var day := ParseDate(target).value;
            var shown := ViewEvents(events, target).events;
            && (forall e :: multiset(shown)[e] == if OnDay(day)(e) then multiset(events)[e] else 0)
            && (forall k :: Filter(shown, WithKey(TimeKey, k)) == Filter(Filter(events, OnDay(day)), WithKey(TimeKey, k)))
  {
    var day := ParseDate(target).value;
    var onDay := Filter(events, OnDay(day));
    forall e
      ensures multiset(ViewEvents(events, target).events)[e] == if OnDay(day)(e) then multiset(events)[e] else 0
    {
      FilterCount(events, OnDay(day), e);
    }
    forall k
      ensures Filter(ViewEvents(events, target).events, WithKey(TimeKey, k)) == Filter(onDay, WithKey(TimeKey, k))
    {
      SortByStable(onDay, TimeKey, k);
    }
  }

  /** Records at the same date and time keep their stored order in the
   *  all-events view. */
  lemma AllViewIsStable(events: seq<Event>, k: int)
    requires ViewReadable(events, "") && events != []
    ensures Filter(ViewEvents(events, "").events, WithKey(ChronoKey, k)) == Filter(events, WithKey(ChronoKey, k))
  {
    SortByStable(events, ChronoKey, k);
  }

  // ---------------------------------------------------------------------------
  // search_events
  // ---------------------------------------------------------------------------

  function StartsWith(text: string, word: string): bool {
    |word| <= |text| && text[..|word|] == word
  }

  /** `word in text`: some position of `text` starts with `word`. */
  function Contains(text: string, word: string): bool
    decreases |text|
  {
    StartsWith(text, word) || (text != [] && Contains(text[1..], word))
  }

  /** `word` occurs in `text` starting at position `i`. */
  predicate OccursAt(text: string, word: string, i: int) {
    0 <= i <= |text| - |word| && text[i..i + |word|] == word
  }

  lemma {:induction false} ContainsIff(text: string, word: string)
    ensures Contains(text, word) <==> exists i :: OccursAt(text, word, i)
    decreases |text|
  {
    if StartsWith(text, word) {
      assert OccursAt(text, word, 0);
    } else if text != [] {
      var rest := text[1..];
      ContainsIff(rest, word);
      if Contains(rest, word) {
        var i :| OccursAt(rest, word, i);
        assert text[i + 1..i + 1 + |word|] == rest[i..i + |word|];
        assert OccursAt(text, word, i + 1);
      }
      if exists i :: OccursAt(text, word, i) {
        var i :| OccursAt(text, word, i);
        assert i != 0;
        assert rest[i - 1..i - 1 + |word|] == text[i..i + |word|];
        assert OccursAt(rest, word, i - 1);
      }
    } else {
      assert forall i :: !OccursAt(text, word, i);
    }
  }

  /** The keyword, lower-cased, occurs in the lower-cased name or type. */
  function Hit(keyword: string): Event -> bool {
    (e: Event) => Contains(Lower(e.name), Lower(keyword)) || Contains(Lower(e.kind), Lower(keyword))
  }

  /** `search_events(keyword)`: the records whose name or type contains
   *  the keyword, ignoring case, ordered by date and time. */
  function Search(events: seq<Event>, keyword: string): (r: View)
    requires forall i :: 0 <= i < |events| && Hit(keyword)(events[i]) ==> Schedulable(events[i])
    ensures r == NoneFound || r.Listing?
    ensures r == NoneFound <==> forall i :: 0 <= i < |events| ==> !Hit(keyword)(events[i])
    ensures r.Listing? ==> SortedBy(r.events, ChronoKey)
                           && multiset(r.events) == multiset(Filter(events, Hit(keyword)))
  {
    var results := Filter(events, Hit(keyword));
    FilterEmptyIff(events, Hit(keyword));
    SortBySorted(results, ChronoKey);
    SortByPermutes(results, ChronoKey);
    if results == [] then NoneFound else Listing(SortBy(results, ChronoKey))
  }

  /** Hits at the same date and time keep their stored order, as Python's
   *  stable `sorted` leaves them. */
  lemma SearchIsStable(events: seq<Event>, keyword: string, k: int)
    requires forall i :: 0 <= i < |events| && Hit(keyword)(events[i]) ==> Schedulable(events[i])
    requires Search(events, keyword).Listing?
    ensures Filter(Search(events, keyword).events, WithKey(ChronoKey, k))
            == Filter(Filter(events, Hit(keyword)), WithKey(ChronoKey, k))
  {
    SortByStable(Filter(events, Hit(keyword)), ChronoKey, k);
  }

  lemma LowerIdempotent(s: string)
    ensures Lower(Lower(s)) == Lower(s)
  {
    var once := Lower(s);
    assert forall i :: 0 <= i < |once| ==> Lower(once)[i] == once[i];
  }

  /** The keyword's case does not matter. */
  lemma SearchIgnoresCase(events: seq<Event>, keyword: string)
    requires forall i :: 0 <= i < |events| && Hit(keyword)(events[i]) ==> Schedulable(events[i])
    ensures forall i :: 0 <= i < |events| && Hit(Lower(keyword))(events[i]) ==> Schedulable(events[i])
    ensures Search(events, Lower(keyword)) == Search(events, keyword)
  {
    LowerIdempotent(keyword);
    FilterAgree(events, Hit(Lower(keyword)), Hit(keyword));
  }

  /** An empty keyword occurs in every text, so it finds every record. */
  lemma EmptyKeywordFindsAll(events: seq<Event>)
    requires events != [] && forall i :: 0 <= i < |events| ==> Schedulable(events[i])
    ensures Search(events, "") == Listing(SortBy(events, ChronoKey))
  {
    assert Lower("") == "";
    forall i | 0 <= i < |events|
      ensures Hit("")(events[i])
    {
      assert StartsWith(Lower(events[i].name), "");
    }
    FilterKeepsAll(events, Hit(""));
  }

  // ---------------------------------------------------------------------------
  // The reminder filter of send_reminders
  // ---------------------------------------------------------------------------

  /** `strptime(e.get('date', ...)).date() == day`. */
  function DatedOn(day: Date): Event -> bool {
    (e: Event) => ParseDate(e.date) == Some(day)
  }

  /** The records dated the day after `today`, in stored order. Every date
   *  is read without a guard, and the day after 31-12-9999 overflows. */
  function Reminders(events: seq<Event>, today: Date): (r: seq<Event>)
    requires ValidDate(today) && today != Date(31, 12, MAX_YEAR)
    requires forall i :: 0 <= i < |events| ==> ParseDate(events[i].date).Some?
    ensures forall i :: 0 <= i < |r| ==>
              ParseDate(r[i].date).Some? && Ordinal(ParseDate(r[i].date).value) == Ordinal(today) + 1
  {
    var tomorrow := NextDate(today).value;
    NextDateIsNextDay(today);
    FilterKeeps(events, DatedOn(tomorrow));
    Filter(events, DatedOn(tomorrow))
  }

  /** A record is kept, as often as it is stored, exactly when its day
   *  number is one past today's. */
  lemma RemindersAreTomorrows(events: seq<Event>, today: Date, e: Event)
    requires ValidDate(today) && today != Date(31, 12, MAX_YEAR)
    requires forall i :: 0 <= i < |events| ==> ParseDate(events[i].date).Some?
    requires ParseDate(e.date).Some?
    ensures multiset(Reminders(events, today))[e]
            == if Ordinal(ParseDate(e.date).value) == Ordinal(today) + 1 then multiset(events)[e] else 0
  {
    var tomorrow := NextDate(today).value;
    NextDateIsNextDay(today);
    OrdinalOrder(ParseDate(e.date).value, tomorrow);
    FilterCount(events, DatedOn(tomorrow), e);
  }

  /** Reminders for a list are the reminders for each part, in order. */
  lemma RemindersKeepOrder(a: seq<Event>, b: seq<Event>, today: Date)
    requires ValidDate(today) && today != Date(31, 12, MAX_YEAR)
    requires forall i :: 0 <= i < |a| ==> ParseDate(a[i].date).Some?
    requires forall i :: 0 <= i < |b| ==> ParseDate(b[i].date).Some?
    ensures forall i :: 0 <= i < |a + b| ==> ParseDate((a + b)[i].date).Some?
    ensures Reminders(a + b, today) == Reminders(a, today) + Reminders(b, today)
  {
    FilterAppend(a, b, DatedOn(NextDate(today).value));
  }
}
