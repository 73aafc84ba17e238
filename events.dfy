/** The event record and the lookup by identifier (`find_event`). */
module Events {
  import opened Wrappers

  /** One stored event. The date and time are kept as the text the operator
   *  typed; the source's `type` field is called `kind` here. A record read
   *  back from storage may lack an id, so `id` is optional. */
  datatype Event = Event(
    id: Option<string>,
    name: string,
    date: string,
    time: string,
    kind: string,
    location: string)

  function LowerChar(c: char): char {
    if 'A' <= c <= 'Z' then (c as int + 32) as char else c
  }

  /** `str.lower()` on the ASCII letters; every other character is kept. */
  function Lower(s: string): (r: string)
    ensures |r| == |s|
    ensures forall i :: 0 <= i < |s| ==> !('A' <= r[i] <= 'Z')
    ensures forall i :: 0 <= i < |s| && 'A' <= s[i] <= 'Z' ==> r[i] as int == s[i] as int + 32
    ensures forall i :: 0 <= i < |s| && !('A' <= s[i] <= 'Z') ==> r[i] == s[i]
  {
    seq(|s|, i requires 0 <= i < |s| => LowerChar(s[i]))
  }

  /** Two characters are the same letter up to ASCII case: equal, or a
   *  capital and its small letter in either order. */
  predicate SameIgnoringCase(x: char, y: char) {
    x == y
    || ('A' <= x <= 'Z' && y as int == x as int + 32)
    || ('A' <= y <= 'Z' && x as int == y as int + 32)
  }

  /** Lower-cased texts are equal exactly when the texts agree letter by
   *  letter up to ASCII case, the comparison `find_event` and the search
   *  rely on. */
  lemma LowerEqualIff(a: string, b: string)
    ensures Lower(a) == Lower(b) <==>
      |a| == |b| && forall i :: 0 <= i < |a| ==> SameIgnoringCase(a[i], b[i])
  {
    if Lower(a) == Lower(b) {
      forall i | 0 <= i < |a|
        ensures SameIgnoringCase(a[i], b[i])
      {
        assert Lower(a)[i] == Lower(b)[i];
      }
    }
    if |a| == |b| && forall i :: 0 <= i < |a| ==> SameIgnoringCase(a[i], b[i]) {
      forall i | 0 <= i < |a|
        ensures Lower(a)[i] == Lower(b)[i]
      {
        assert SameIgnoringCase(a[i], b[i]);
      }
    }
  }

  /** A record answers to an identifier when its id equals it, or when its
   *  name equals it ignoring case. Ids and names share one namespace. */
  predicate Matches(e: Event, identifier: string) {
    e.id == Some(identifier) || Lower(e.name) == Lower(identifier)
  }

  /** The position of the first record, in list order, that answers to the
   *  identifier; `find_event` returns the record at that position. */
  function FindIndex(events: seq<Event>, identifier: string): (r: Option<nat>)
    ensures r.Some? ==> r.value < |events| && Matches(events[r.value], identifier)
    ensures r.Some? ==> forall j :: 0 <= j < r.value ==> !Matches(events[j], identifier)
    ensures r.None? <==> forall j :: 0 <= j < |events| ==> !Matches(events[j], identifier)
  {
    if events == [] then
      None
    else if Matches(events[0], identifier) then
      Some(0)
    else
      match FindIndex(events[1..], identifier)
      case None => None
      case Some(i) => Some(i + 1)
  }

  /** `find_event`: the first record that answers to the identifier, if any. */
  function FindEvent(events: seq<Event>, identifier: string): (r: Option<Event>)
    ensures r.Some? <==> exists i :: 0 <= i < |events| && Matches(events[i], identifier)
    ensures r.Some? ==> r.value in events && Matches(r.value, identifier)
    ensures r.Some? ==> exists i :: 0 <= i < |events| && r.value == events[i]
                                   && forall j :: 0 <= j < i ==> !Matches(events[j], identifier)
  {
    match FindIndex(events, identifier)
    case None => None
    case Some(i) => Some(events[i])
  }

  /** An earlier record equal to the found one would answer to the same
   *  identifier, so the found record is also the first record equal to it
   *  (which is the one `list.remove` takes out). */
  lemma FoundIsFirstOccurrence(events: seq<Event>, identifier: string)
    requires FindIndex(events, identifier).Some?
    ensures var i := FindIndex(events, identifier).value;
            forall j :: 0 <= j < i ==> events[j] != events[i]
  {
  }

  /** Ids and names share one namespace: a record whose name is another
   *  record's id shadows it when it comes first. */
  lemma NameCanShadowId()
    ensures var first := Event(None, "ab12cd34", "01-01-2030", "09:00", "", "");
            var second := Event(Some("ab12cd34"), "Sync", "01-01-2030", "12:00", "", "");
            FindIndex([first, second], "ab12cd34") == Some(0)
  {
    var first := Event(None, "ab12cd34", "01-01-2030", "09:00", "", "");
    assert Matches(first, "ab12cd34");
  }
}
