/** The calendar service: creating an event together with its attendee
    links as one all-or-nothing unit, listing, the overlap search, partial
    update, and the transactional delete of an event with its links. */
module Events {
  import opened Common
  import opened PhpText
  import opened Ordering
  import opened Db

  /** The columns `list` and `find` select:
      `id, heading, description, start_time, end_time`. */
  datatype EventView = EventView(
    id: int,
    heading: string,
    description: Option<string>,
    startTime: int,
    endTime: int)

  function View(e: Event): EventView {
    EventView(e.id, e.heading, e.description, e.startTime, e.endTime)
  }

  function Views(s: seq<Event>): seq<EventView> {
    seq(|s|, i requires 0 <= i < |s| => View(s[i]))
  }

  /** What a call answers: a row listing, or one of the fixed messages. */
  datatype Reply =
    | Created(id: int)
    | EmptyHeading
    | EndBeforeStart
    | CreateFailed
    | Rows(rows: seq<EventView>)
    | NoEvents
    | NoEventsInRange
    | NoFields
    | Updated(id: int)
    | UpdateMissed(id: int)
    | Deleted(id: int)
    | DeleteMissed(id: int)
    | DeleteFailed

  predicate IsError(r: Reply) {
    r.EmptyHeading? || r.EndBeforeStart? || r.CreateFailed? || r.NoFields?
    || r.UpdateMissed? || r.DeleteMissed? || r.DeleteFailed?
  }

  const CreatedPrefix := "Successfully created event with ID "

  /** An error text: the fixed marker, then the explanation. */
  function Err(why: string): string {
    "Error: " + why
  }

  /** The text returned for every reply that is not a row listing. */
  function Message(r: Reply): string
    requires !r.Rows?
  {
    match r
    case Created(id) => CreatedPrefix + IntToString(id) + "."
    case EmptyHeading => Err("Event heading cannot be empty.")
    case EndBeforeStart => Err("End time cannot be before start time.")
    case CreateFailed => Err("Could not create event due to a database error.")
    case NoEvents => "No events found."
    case NoEventsInRange => "No events found in that time range."
    case NoFields => Err("No fields provided to update.")
    case Updated(id) => "Successfully updated event ID " + IntToString(id) + "."
    case UpdateMissed(id) => Err("Event with ID " + IntToString(id) + " not found or no changes made.")
    case Deleted(id) => "Successfully deleted event ID " + IntToString(id) + "."
    case DeleteMissed(id) => Err("Event with ID " + IntToString(id) + " not found.")
    case DeleteFailed => Err("Could not delete event due to a database error.")
  }

  /** `start_time < qEnd AND end_time > qStart`. */
  predicate Overlaps(e: Event, qs: int, qe: int) {
    e.startTime < qe && e.endTime > qs
  }

  /** The WHERE condition of `find`, as a row filter. */
  function InWindow(qs: int, qe: int): Event -> bool {
    e => Overlaps(e, qs, qe)
  }

  /** `ORDER BY start_time`. */
  function StartKey(e: Event): Key {
    Num(e.startTime)
  }

  /** Listed rows in non-decreasing start time. */
  predicate AscendingByStart(rows: seq<EventView>) {
    forall i, j :: 0 <= i < j < |rows| ==> rows[i].startTime <= rows[j].startTime
  }

  /** The contact ids to link: `null` and the empty array both mean none. */
  function IdList(contactIds: Option<seq<int>>): seq<int> {
    contactIds.GetOr([])
  }

  /** The link rows `create` inserts, one per contact id in the given order:
      a link is among them exactly when it names the event and one of the
      contact ids. */
  function LinksFor(eventId: int, contactIds: seq<int>): (r: seq<Link>)
    ensures forall l :: l in r <==> l.eventId == eventId && l.contactId in contactIds
  {
    var links := seq(|contactIds|, i requires 0 <= i < |contactIds| => Link(eventId, contactIds[i]));
    assert forall l: Link :: l.eventId == eventId && l.contactId in contactIds ==> l in links by {
      forall l: Link | l.eventId == eventId && l.contactId in contactIds
        ensures l in links
      {
        var i :| 0 <= i < |contactIds| && contactIds[i] == l.contactId;
        assert links[i] == l;
      }
    }
    links
  }

  /** A driver failure is described by the index of the statement that throws
      within the unit; `None` means every statement succeeds. A unit of
      `steps` statements fails when that index is one of its own. */
  predicate FailsWithin(failAt: Option<nat>, steps: nat) {
    failAt.Some? && failAt.value < steps
  }

  /** The statements of a `create` unit: the event insert, then one link
      insert per contact id. */
  function CreateSteps(contactIds: Option<seq<int>>): nat {
    1 + |IdList(contactIds)|
  }

  /** The statements of a `delete` unit: the link delete, then the event
      delete. */
  const DeleteSteps: nat := 2

  /** The checks `create` makes before touching the store. */
  predicate CreateAccepted(heading: string, startTime: int, endTime: int) {
    !PhpEmpty(Trim(heading)) && startTime <= endTime
  }

  /** An update call that supplies no field at all. */
  predicate NoneSupplied(heading: Option<string>, startTime: Option<int>, endTime: Option<int>,
                         description: Option<string>) {
    heading.None? && startTime.None? && endTime.None? && description.None?
  }

  /** The row as a partial update leaves it: each supplied field replaced,
      each absent one kept, and the modification time set to `now`. */
  function Patch(e: Event, heading: Option<string>, startTime: Option<int>, endTime: Option<int>,
                 description: Option<string>, now: int): Event
  {
    e.(heading := heading.GetOr(e.heading),
       startTime := startTime.GetOr(e.startTime),
       endTime := endTime.GetOr(e.endTime),
       description := if description.Some? then description else e.description,
       updatedAt := now)
  }

  /** The SET list `update` builds from the supplied fields, in the order
      heading, start time, end time, description. */
  function Assignments(heading: Option<string>, startTime: Option<int>, endTime: Option<int>,
                       description: Option<string>): seq<EventAssignment>
  {
    (if heading.Some? then [SetHeading(heading.value)] else [])
    + (if startTime.Some? then [SetStartTime(startTime.value)] else [])
    + (if endTime.Some? then [SetEndTime(endTime.value)] else [])
    + (if description.Some? then [SetDescription(description.value)] else [])
  }

  /** The SET list is empty exactly when no field is supplied. */
  lemma AssignmentsEmpty(heading: Option<string>, startTime: Option<int>, endTime: Option<int>,
                         description: Option<string>)
    ensures Assignments(heading, startTime, endTime, description) == [] <==> NoneSupplied(heading, startTime, endTime, description)
  {
    var sets := Assignments(heading, startTime, endTime, description);
    if !NoneSupplied(heading, startTime, endTime, description) {
      assert |sets| > 0;
    }
  }

  /** One optional item of the SET list: a supplied heading replaces the
      heading of the row the list has built so far, an absent one keeps it. */
  lemma StepHeading(e: Event, a: seq<EventAssignment>, heading: Option<string>)
    ensures var r := AssignEventAll(e, a);
            AssignEventAll(e, a + (if heading.Some? then [SetHeading(heading.value)] else []))
            == r.(heading := heading.GetOr(r.heading))
  {
    if heading.Some? { AssignEventAllSnoc(e, a, SetHeading(heading.value)); } else { assert a + [] == a; }
  }

  lemma StepStartTime(e: Event, a: seq<EventAssignment>, startTime: Option<int>)
    ensures var r := AssignEventAll(e, a);
            AssignEventAll(e, a + (if startTime.Some? then [SetStartTime(startTime.value)] else []))
            == r.(startTime := startTime.GetOr(r.startTime))
  {
    if startTime.Some? { AssignEventAllSnoc(e, a, SetStartTime(startTime.value)); } else { assert a + [] == a; }
  }

  lemma StepEndTime(e: Event, a: seq<EventAssignment>, endTime: Option<int>)
    ensures var r := AssignEventAll(e, a);
            AssignEventAll(e, a + (if endTime.Some? then [SetEndTime(endTime.value)] else []))
            == r.(endTime := endTime.GetOr(r.endTime))
  {
    if endTime.Some? { AssignEventAllSnoc(e, a, SetEndTime(endTime.value)); } else { assert a + [] == a; }
  }

  lemma StepDescription(e: Event, a: seq<EventAssignment>, description: Option<string>)
    ensures var r := AssignEventAll(e, a);
            AssignEventAll(e, a + (if description.Some? then [SetDescription(description.value)] else []))
            == r.(description := if description.Some? then description else r.description)
  {
    if description.Some? { AssignEventAllSnoc(e, a, SetDescription(description.value)); } else { assert a + [] == a; }
  }

  /** Running the SET list, then `updated_at = now`, on a row is the
      partial update of that row. */
  lemma AssignmentsPatch(e: Event, heading: Option<string>, startTime: Option<int>, endTime: Option<int>,
                         description: Option<string>, now: int)
    ensures AssignEventAll(e, Assignments(heading, startTime, endTime, description) + [SetEventUpdatedAt(now)])
            == Patch(e, heading, startTime, endTime, description, now)
  {
    var s1 := if heading.Some? then [SetHeading(heading.value)] else [];
    var s2 := if startTime.Some? then [SetStartTime(startTime.value)] else [];
    var s3 := if endTime.Some? then [SetEndTime(endTime.value)] else [];
    var s4 := if description.Some? then [SetDescription(description.value)] else [];
    StepHeading(e, [], heading);
    assert [] + s1 == s1;
    StepStartTime(e, s1, startTime);
    StepEndTime(e, s1 + s2, endTime);
    StepDescription(e, s1 + s2 + s3, description);
    AssignEventAllSnoc(e, s1 + s2 + s3 + s4, SetEventUpdatedAt(now));
  }

  class Events {
    const db: Database

    constructor (db: Database)
      ensures this.db == db
    {
      this.db := db;
    }

    /** Validates, then inserts the event and one link per contact id inside
        one transaction; a statement that throws rolls the whole unit back. */
    method Create(heading: string, startTime: int, endTime: int, description: Option<string>,
                  contactIds: Option<seq<int>>, now: int, failAt: Option<nat>) returns (r: Reply)
      requires db.Idle()
      modifies db
      ensures db.Idle()
      ensures PhpEmpty(Trim(heading)) ==> r == EmptyHeading && db.Snapshot() == old(db.Snapshot())
      ensures !PhpEmpty(Trim(heading)) && endTime < startTime ==> r == EndBeforeStart && db.Snapshot() == old(db.Snapshot())
      ensures CreateAccepted(heading, startTime, endTime) && FailsWithin(failAt, CreateSteps(contactIds)) ==>
                r == CreateFailed && db.Snapshot() == old(db.Snapshot())
      ensures CreateAccepted(heading, startTime, endTime) && !FailsWithin(failAt, CreateSteps(contactIds)) ==>
                var id := old(db.nextEventId);
                && r == Created(id)
                && id !in old(db.events)
                && db.events == old(db.events)[id := Event(id, heading, description, startTime, endTime, now, now)]
                && db.links == old(db.links) + LinksFor(id, IdList(contactIds))
                && db.contacts == old(db.contacts)
                && db.nextEventId == id + 1 && db.nextContactId == old(db.nextContactId)
    {
      if PhpEmpty(Trim(heading)) {
        return EmptyHeading;
      }
      if endTime < startTime {
        return EndBeforeStart;
      }
      db.BeginTransaction();
      var eventId, ok := InsertWithLinks(heading, startTime, endTime, description, IdList(contactIds), now, failAt);
      if ok {
        db.Commit();
        r := Created(eventId);
      } else {
        db.RollBack();
        r := CreateFailed;
      }
    }

    /** The statements of the `create` unit, run inside the open transaction
        until one throws: the event insert, then one link insert per contact
        id. `ok` tells whether all of them ran. */
    method InsertWithLinks(heading: string, startTime: int, endTime: int, description: Option<string>,
                           ids: seq<int>, now: int, failAt: Option<nat>) returns (eventId: int, ok: bool)
      requires db.Valid() && db.savepoint.Some?
      modifies db
      ensures db.Valid() && db.savepoint == old(db.savepoint)
      ensures ok <==> !FailsWithin(failAt, 1 + |ids|)
      ensures ok ==>
                && eventId == old(db.nextEventId)
                && eventId !in old(db.events)
                && db.events == old(db.events)[eventId := Event(eventId, heading, description, startTime, endTime, now, now)]
                && db.links == old(db.links) + LinksFor(eventId, ids)
                && db.contacts == old(db.contacts)
                && db.nextEventId == eventId + 1 && db.nextContactId == old(db.nextContactId)
    {
      if failAt == Some(0) {
        return 0, false;
      }
      eventId := db.InsertEvent(heading, description, startTime, endTime, now, now);
      var i := 0;
      while i < |ids| && failAt != Some(i + 1)
        invariant 0 <= i <= |ids|
        invariant db.Valid() && db.savepoint == old(db.savepoint)
        invariant eventId == old(db.nextEventId) && eventId !in old(db.events)
        invariant db.nextEventId == eventId + 1 && db.nextContactId == old(db.nextContactId)
        invariant db.events == old(db.events)[eventId := Event(eventId, heading, description, startTime, endTime, now, now)]
        invariant db.contacts == old(db.contacts)
        invariant db.links == old(db.links) + LinksFor(eventId, ids[..i])
        invariant !FailsWithin(failAt, i + 1)
      {
        assert LinksFor(eventId, ids[..i + 1]) == LinksFor(eventId, ids[..i]) + [Link(eventId, ids[i])];
        db.InsertLink(eventId, ids[i]);
        i := i + 1;
      }
      ok := i == |ids|;
      if ok {
        assert ids[..i] == ids;
      }
    }

    /** Every event, by non-decreasing start time. */
    method List() returns (r: Reply)
      ensures r.Rows? || r.NoEvents?
      ensures r.NoEvents? <==> db.events.Keys == {}
      ensures r.Rows? ==> exists s :: ListsExactly(s, db.events, db.events.Keys) && r.rows == Views(s)
      ensures r.Rows? ==> AscendingByStart(r.rows)
    {
      var rows := Scan(db.events, EveryRow);
      WhereEveryRow(db.events);
      var sorted := SortBy(rows, StartKey, false);
      ListsExactlyPermuted(rows, sorted, db.events, db.events.Keys);
      if |sorted| == 0 {
        r := NoEvents;
      } else {
        r := Rows(Views(sorted));
        assert forall i, j :: 0 <= i < j < |sorted| ==> Before(StartKey(sorted[i]), StartKey(sorted[j]), false);
      }
    }

    /** The events overlapping the window `(startTime, endTime)`, by
        non-decreasing start time. */
    method Find(startTime: int, endTime: int) returns (r: Reply)
      ensures r.Rows? || r.NoEventsInRange?
      ensures r.NoEventsInRange? <==> forall k :: k in db.events ==> !Overlaps(db.events[k], startTime, endTime)
      ensures r.Rows? ==> exists s :: ListsExactly(s, db.events, Where(db.events, InWindow(startTime, endTime)))
                                    && r.rows == Views(s)
      ensures r.Rows? ==> AscendingByStart(r.rows)
    {
      var window := InWindow(startTime, endTime);
      var rows := Scan(db.events, window);
      var sorted := SortBy(rows, StartKey, false);
      ListsExactlyPermuted(rows, sorted, db.events, Where(db.events, window));
      if |sorted| == 0 {
        r := NoEventsInRange;
        assert Where(db.events, window) == {};
        forall k | k in db.events
          ensures !Overlaps(db.events[k], startTime, endTime)
        {
          assert k !in Where(db.events, window);
        }
      } else {
        r := Rows(Views(sorted));
        assert Where(db.events, window) != {};
        SomeKey(Where(db.events, window));
        var k :| IsKey(k, Where(db.events, window));
        assert Overlaps(db.events[k], startTime, endTime);
        assert forall i, j :: 0 <= i < j < |sorted| ==> Before(StartKey(sorted[i]), StartKey(sorted[j]), false);
      }
    }

    /** Builds the SET list from the supplied fields, adds the modification
        time, and updates the row with that id. Nothing is re-validated. */
    method Update(id: int, heading: Option<string>, startTime: Option<int>, endTime: Option<int>,
                  description: Option<string>, now: int) returns (r: Reply)
      requires db.Idle()
      modifies db
      ensures db.Idle()
      ensures NoneSupplied(heading, startTime, endTime, description) ==> r == NoFields && db.Snapshot() == old(db.Snapshot())
      ensures !NoneSupplied(heading, startTime, endTime, description) && id in old(db.events) ==>
                && r == Updated(id)
                && db.events == old(db.events)[id := Patch(old(db.events)[id], heading, startTime, endTime, description, now)]
      ensures !NoneSupplied(heading, startTime, endTime, description) && id !in old(db.events) ==>
                r == UpdateMissed(id) && db.events == old(db.events)
      ensures db.contacts == old(db.contacts) && db.links == old(db.links)
      ensures db.nextContactId == old(db.nextContactId) && db.nextEventId == old(db.nextEventId)
    {
      var sets: seq<EventAssignment> := [];
      if heading.Some? {
        sets := sets + [SetHeading(heading.value)];
      }
      if startTime.Some? {
        sets := sets + [SetStartTime(startTime.value)];
      }
      if endTime.Some? {
        sets := sets + [SetEndTime(endTime.value)];
      }
      if description.Some? {
        sets := sets + [SetDescription(description.value)];
      }
      assert sets == Assignments(heading, startTime, endTime, description);
      AssignmentsEmpty(heading, startTime, endTime, description);
      if sets == [] {
        return NoFields;
      }
      sets := sets + [SetEventUpdatedAt(now)];
      if id in db.events {
        AssignmentsPatch(db.events[id], heading, startTime, endTime, description, now);
      }
      var count := db.UpdateEvent(id, sets);
      if count > 0 {
        r := Updated(id);
      } else {
        r := UpdateMissed(id);
      }
    }

    /** Removes the event's links, then the event, inside one transaction; a
        missing event or a statement that throws rolls the unit back. */
    method Delete(id: int, failAt: Option<nat>) returns (r: Reply)
      requires db.Idle()
      modifies db
      ensures db.Idle()
      ensures FailsWithin(failAt, DeleteSteps) ==> r == DeleteFailed && db.Snapshot() == old(db.Snapshot())
      ensures !FailsWithin(failAt, DeleteSteps) && id !in old(db.events) ==> r == DeleteMissed(id) && db.Snapshot() == old(db.Snapshot())
      ensures !FailsWithin(failAt, DeleteSteps) && id in old(db.events) ==>
                && r == Deleted(id)
                && db.events == old(db.events) - {id}
                && db.links == RemoveLinksOf(old(db.links), id)
                && db.contacts == old(db.contacts)
                && db.nextContactId == old(db.nextContactId) && db.nextEventId == old(db.nextEventId)
    {
      ghost var before := db.Snapshot();
      db.BeginTransaction();
      assert db.savepoint == Some(before);
      if failAt == Some(0) {
        db.RollBack();
        return DeleteFailed;
      }
      db.DeleteLinksOf(id);
      if failAt == Some(1) {
        db.RollBack();
        return DeleteFailed;
      }
      var count := db.DeleteEvent(id);
      if count > 0 {
        db.Commit();
        r := Deleted(id);
      } else {
        db.RollBack();
        r := DeleteMissed(id);
      }
    }
  }

  /** For an event of positive length, overlapping the window is sharing an
      integer instant `t` with it, where both intervals are read half-open,
      `[start, end)`. */
  predicate SharedInstant(e: Event, qs: int, qe: int, t: int) {
    e.startTime <= t < e.endTime && qs <= t < qe
  }

  lemma OverlapIsSharedInstant(e: Event, qs: int, qe: int)
    requires e.startTime < e.endTime && qs < qe
    ensures Overlaps(e, qs, qe) <==> exists t :: SharedInstant(e, qs, qe, t)
  {
    if Overlaps(e, qs, qe) {
      var t := if e.startTime < qs then qs else e.startTime;
      assert SharedInstant(e, qs, qe, t);
    }
  }

  /** Touching is not overlapping: an event ending where the window starts,
      or starting where it ends, is not found. */
  lemma TouchingIsNotOverlap(e: Event, qs: int, qe: int)
    requires e.endTime == qs || e.startTime == qe
    ensures !Overlaps(e, qs, qe)
  {
  }

  /** Every error reply, and only those, reads "Error: ...". */
  lemma ErrorRepliesSayError(r: Reply)
    requires !r.Rows?
    ensures IsError(r) <==> "Error: " <= Message(r)
  {
    if IsError(r) {
      assert Message(r)[..7] == "Error: ";
    } else {
      assert Message(r)[0] != 'E';
    }
  }

  /** The id can be read back from a creation message: the digits between
      the fixed prefix and the final full stop. */
  lemma CreatedMessageCarriesId(id: int)
    ensures var m := Message(Created(id));
            CreatedPrefix <= m && m[|m| - 1] == '.'
            && ParseInt(m[|CreatedPrefix|..|m| - 1]) == Some(id)
  {
    var m := Message(Created(id));
    assert m[|CreatedPrefix|..|m| - 1] == IntToString(id);
    ParseIntToString(id);
  }

  /** Deleting the links of an event that had none before its creation
      removes exactly the links the creation added. */
  lemma RemoveCreatedLinks(links: seq<Link>, eventId: int, contactIds: seq<int>)
    requires forall l :: l in links ==> l.eventId != eventId
    ensures RemoveLinksOf(links + LinksFor(eventId, contactIds), eventId) == links
  {
    RemoveLinksOfAppend(links, LinksFor(eventId, contactIds), eventId);
    RemoveLinksOfNone(links, eventId);
    RemoveLinksOfOnly(LinksFor(eventId, contactIds), eventId);
  }

  /** Removing a key just added to a map gives the map back. */
  lemma InsertThenRemove(m: map<int, Event>, id: int, row: Event)
    requires id !in m
    ensures m[id := row] - {id} == m
  {
  }

  /** A created event with its links, deleted again, leaves the events and
      links as they were before the creation. */
  method CreateThenDelete(events: Events, heading: string, startTime: int, endTime: int,
                          description: Option<string>, contactIds: Option<seq<int>>, now: int)
      returns (created: Reply, deleted: Reply)
    requires events.db.Idle()
    modifies events.db
    ensures events.db.Idle()
    ensures CreateAccepted(heading, startTime, endTime) ==>
              created == Created(old(events.db.nextEventId)) && deleted == Deleted(created.id)
              && events.db.events == old(events.db.events)
              && events.db.links == old(events.db.links)
              && events.db.contacts == old(events.db.contacts)
  {
    created := events.Create(heading, startTime, endTime, description, contactIds, now, None);
    if created.Created? {
      var id := created.id;
      assert forall l :: l in old(events.db.links) ==> l.eventId != id;
      RemoveCreatedLinks(old(events.db.links), id, IdList(contactIds));
      InsertThenRemove(old(events.db.events), id, Event(id, heading, description, startTime, endTime, now, now));
      deleted := events.Delete(id, None);
    } else {
      deleted := DeleteMissed(0);
    }
  }
}
