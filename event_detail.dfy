/** The event page: the event chosen by the id in the address, its related
    events, and the parts of the page that depend on the event's status. */
module EventDetail {
  import opened Wrappers
  import opened Seqs
  import opened Records
  import DataContext

  function IdIs(id: string): Record -> bool
  {
    (e: Record) => FieldIs(e, "id", id)
  }

  /** `data.events.find(e => e.id === id)`; `None` shows "Event Not Found". */
  function EventById(events: seq<Record>, id: string): (r: Option<Record>)
    ensures r.None? <==> forall i :: 0 <= i < |events| ==> !FieldIs(events[i], "id", id)
    ensures r.Some? ==> exists i :: 0 <= i < |events| && events[i] == r.value && FieldIs(r.value, "id", id)
                          && forall j :: 0 <= j < i ==> !FieldIs(events[j], "id", id)
  {
    Find(events, IdIs(id))
  }

  /** An event created by `addEvent` is found at its id, unless an older event
      already carries that id. */
  lemma NewEventReachable(events: seq<Record>, event: Record, token: string)
    ensures EventById(events + [DataContext.NewEvent(event, token)], token) ==
              if EventById(events, token).Some? then EventById(events, token)
              else Some(DataContext.NewEvent(event, token))
  {
    FindSnoc(events, DataContext.NewEvent(event, token), IdIs(token));
  }

  /** The related-event test: a different id, and the same type or organizer. */
  predicate IsRelated(event: Record, e: Record)
  {
    Get(e, "id") != Get(event, "id") && (Get(e, "type") == Get(event, "type") || Get(e, "organizer") == Get(event, "organizer"))
  }

  function RelatedTo(event: Record): Record -> bool
  {
    (e: Record) => IsRelated(event, e)
  }

  /** `relatedEvents`: the first three related events in catalog order. */
  function RelatedEvents(events: seq<Record>, event: Record): (r: seq<Record>)
    ensures |r| <= 3
    ensures forall i :: 0 <= i < |r| ==> IsRelated(event, r[i])
    ensures event !in r
  {
    Take(Filter(events, RelatedTo(event)), 3)
  }

  /** The related events are the catalog's related events in order, cut off
      after three: a related event is left out only when three are already
      shown, and the events shown are all the related events of some prefix of
      the catalog, so none is skipped in favour of a later one. */
  lemma RelatedEventsExact(events: seq<Record>, event: Record, e: Record)
    ensures IsSubseq(RelatedEvents(events, event), events)
    ensures e in RelatedEvents(events, event) ==> e in events
    ensures e in events && IsRelated(event, e) && e !in RelatedEvents(events, event) ==>
              |RelatedEvents(events, event)| == 3
    ensures exists m :: 0 <= m <= |events| && (m == |events| || |RelatedEvents(events, event)| == 3)
                        && RelatedEvents(events, event) == Filter(events[..m], RelatedTo(event))
                        && forall x :: x in RelatedEvents(events, event) <==> x in events[..m] && IsRelated(event, x)
  {
    TakeFilterExact(events, RelatedTo(event), 3, e);
    TakeFilterPrefix(events, RelatedTo(event), 3);
    var m :| 0 <= m <= |events| && Take(Filter(events, RelatedTo(event)), 3) == Filter(events[..m], RelatedTo(event))
             && (m == |events| || |Take(Filter(events, RelatedTo(event)), 3)| == 3);
    forall x ensures x in RelatedEvents(events, event) <==> x in events[..m] && IsRelated(event, x) {
      FilterMembership(events[..m], RelatedTo(event), x);
    }
  }

  /** The side panel: registration for an upcoming event, the resources download
      for a completed one, and the cancellation notice for any other status. */
  datatype Panel = RegistrationPanel | CompletedPanel | CancelledPanel

  function StatusPanel(event: Record): (p: Panel)
    ensures p == RegistrationPanel <==> FieldIs(event, "status", "upcoming")
    ensures p == CompletedPanel <==> FieldIs(event, "status", "completed")
  {
    if FieldIs(event, "status", "upcoming") then RegistrationPanel
    else if FieldIs(event, "status", "completed") then CompletedPanel
    else CancelledPanel
  }

  /** The panel's title. */
  function PanelTitle(event: Record): (t: string)
    ensures t == "Registration" <==> StatusPanel(event) == RegistrationPanel
  {
    if FieldIs(event, "status", "upcoming") then "Registration" else "Event Status"
  }

  /** The "Register Now" button under the title. */
  predicate ShowsRegisterButton(event: Record)
  {
    FieldIs(event, "status", "upcoming")
  }

  /** The "Event Resources" card. */
  predicate ShowsResources(event: Record)
  {
    FieldIs(event, "status", "completed")
  }

  /** The page never contradicts itself: the register button appears exactly
      with the registration panel, the resources exactly with the completed
      panel, never both, and every status other than upcoming or completed,
      a missing one included, gets the cancellation notice. */
  lemma StatusPartsAgree(event: Record)
    ensures ShowsRegisterButton(event) <==> StatusPanel(event) == RegistrationPanel
    ensures ShowsResources(event) <==> StatusPanel(event) == CompletedPanel
    ensures !(ShowsRegisterButton(event) && ShowsResources(event))
    ensures StatusPanel(event) == CancelledPanel <==>
              !FieldIs(event, "status", "upcoming") && !FieldIs(event, "status", "completed")
  {
  }
}
