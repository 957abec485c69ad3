/** The events list page: the search and filter controls, the statistics
    row, and the badge colours (which the event detail page shares). */
module Events {
  import opened Wrappers
  import opened Seqs
  import opened Strings
  import opened Records

  /** The filter an event must pass: the search term occurs, ignoring case, in
      its title, description or location, and its type, status and year equal
      the selected ones unless those are `'all'`. */
  predicate EventMatches(e: Record, term: string, kind: string, status: string, year: string)
  {
    (Matches(Text(e, "title"), term) || Matches(Text(e, "description"), term) || Matches(Text(e, "location"), term))
    && (kind == "all" || FieldIs(e, "type", kind))
    && (status == "all" || FieldIs(e, "status", status))
    && (year == "all" || YearOf(Text(e, "date")) == year)
  }

  function EventFilter(term: string, kind: string, status: string, year: string): Record -> bool
  {
    (e: Record) => EventMatches(e, term, kind, status, year)
  }

  /** `filteredEvents`: never more than the "of Y" total of "Showing X of Y events". */
  function FilteredEvents(events: seq<Record>, term: string, kind: string, status: string, year: string): (r: seq<Record>)
    ensures |r| <= |events|
    ensures forall i :: 0 <= i < |r| ==> EventMatches(r[i], term, kind, status, year)
  {
    Filter(events, EventFilter(term, kind, status, year))
  }

  /** The filtered list is the events that pass the filter, in catalog order. */
  lemma FilteredEventsExact(events: seq<Record>, term: string, kind: string, status: string, year: string)
    ensures IsSubseq(FilteredEvents(events, term, kind, status, year), events)
    ensures forall e :: e in FilteredEvents(events, term, kind, status, year) <==>
              e in events && EventMatches(e, term, kind, status, year)
  {
    var p := EventFilter(term, kind, status, year);
    FilterIsSubseq(events, p);
    forall e ensures e in Filter(events, p) <==> e in events && p(e) {
      FilterMembership(events, p, e);
    }
  }

  /** With no search term and every selector on `'all'` the whole list is shown. */
  lemma NoFilterShowsAll(events: seq<Record>)
    ensures FilteredEvents(events, "", "all", "all", "all") == events
  {
    forall i | 0 <= i < |events| ensures EventMatches(events[i], "", "all", "all", "all") {
      MatchesEmpty(Text(events[i], "title"));
    }
    FilterKeepsAll(events, EventFilter("", "all", "all", "all"));
  }

  function StatusIs(status: string): Record -> bool
  {
    (e: Record) => FieldIs(e, "status", status)
  }

  /** The "Upcoming Events" statistic. */
  function UpcomingCount(events: seq<Record>): nat
  {
    |Filter(events, StatusIs("upcoming"))|
  }

  /** The "Completed Events" statistic. */
  function CompletedCount(events: seq<Record>): nat
  {
    |Filter(events, StatusIs("completed"))|
  }

  /** An event is never counted both as upcoming and as completed. */
  lemma StatusCountsBounded(events: seq<Record>)
    ensures UpcomingCount(events) + CompletedCount(events) <= |events|
  {
    FilterDisjointCounts(events, StatusIs("upcoming"), StatusIs("completed"));
  }

  function TypeOf(e: Record): Option<Value>
  {
    Get(e, "type")
  }

  /** The "Event Types" statistic, `[...new Set(events.map(e => e.type))].length`:
      the number of distinct `type` values (a missing type counts as one value). */
  function EventTypeCount(events: seq<Record>): (n: nat)
    ensures n == |Image(events, TypeOf)|
  {
    DistinctMapCount(events, TypeOf);
    |Distinct(MapSeq(events, TypeOf))|
  }

  const Gray := "bg-gray-100 text-gray-800 dark:bg-gray-900 dark:text-gray-300"

  const TypeColors: map<string, string> := map[
    "workshop" := "bg-blue-100 text-blue-800 dark:bg-blue-900 dark:text-blue-300",
    "webinar" := "bg-green-100 text-green-800 dark:bg-green-900 dark:text-green-300",
    "competition" := "bg-purple-100 text-purple-800 dark:bg-purple-900 dark:text-purple-300",
    "celebration" := "bg-orange-100 text-orange-800 dark:bg-orange-900 dark:text-orange-300",
    "presentation" := "bg-pink-100 text-pink-800 dark:bg-pink-900 dark:text-pink-300"]

  const StatusColors: map<string, string> := map[
    "upcoming" := "bg-green-100 text-green-800 dark:bg-green-900 dark:text-green-300",
    "completed" := Gray,
    "cancelled" := "bg-red-100 text-red-800 dark:bg-red-900 dark:text-red-300"]

  /** `colors[key] || fallback` for a table whose entries are all non-empty. */
  function Lookup(table: map<string, string>, key: string, fallback: string): string
  {
    if key in table then table[key] else fallback
  }

  /** `getEventTypeColor`: the five known types have their own colours; every
      other type falls back to gray. */
  function EventTypeColor(kind: string): (c: string)
    ensures c == Gray <==> kind !in {"workshop", "webinar", "competition", "celebration", "presentation"}
    ensures c in TypeColors.Values || c == Gray
  {
    Lookup(TypeColors, kind, Gray)
  }

  /** `getStatusColor`: an unknown status falls back to gray, which is also the
      colour of `completed`; only `upcoming` and `cancelled` are coloured. */
  function EventStatusColor(status: string): (c: string)
    ensures c == Gray <==> status !in {"upcoming", "cancelled"}
    ensures c in StatusColors.Values
  {
    assert StatusColors["completed"] == Gray;
    Lookup(StatusColors, status, Gray)
  }
}
