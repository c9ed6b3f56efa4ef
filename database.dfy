/** The relational store both services share: the `contacts` and `events`
    tables keyed by their auto-increment id, the `event_contacts` link table,
    the auto-increment counters that `lastInsertId()` reads, and the one
    transaction the connection can have open. Each statement the services
    execute is a method here; `SELECT` is the table scan `Scan`. */
module Db {
  import opened Common

  datatype Contact = Contact(
    id: int,
    name: string,
    email: Option<string>,
    phone: Option<string>,
    notes: Option<string>,
    createdAt: int,
    updatedAt: int)

  datatype Event = Event(
    id: int,
    heading: string,
    description: Option<string>,
    startTime: int,
    endTime: int,
    createdAt: int,
    updatedAt: int)

  /** A row of `event_contacts`: the contact attends the event. */
  datatype Link = Link(eventId: int, contactId: int)

  /** One `column = ?` item of an `UPDATE events SET ...` list. */
  datatype EventAssignment =
    | SetHeading(heading: string)
    | SetStartTime(startTime: int)
    | SetEndTime(endTime: int)
    | SetDescription(description: string)
    | SetEventUpdatedAt(at: int)

  /** One `column = ?` item of an `UPDATE contacts SET ...` list. */
  datatype ContactAssignment =
    | SetName(name: string)
    | SetEmail(email: string)
    | SetPhone(phone: string)
    | SetNotes(notes: string)
    | SetContactUpdatedAt(at: int)

  function AssignEvent(e: Event, a: EventAssignment): Event {
    match a
    case SetHeading(h) => e.(heading := h)
    case SetStartTime(t) => e.(startTime := t)
    case SetEndTime(t) => e.(endTime := t)
    case SetDescription(d) => e.(description := Some(d))
    case SetEventUpdatedAt(t) => e.(updatedAt := t)
  }

  /** The SET list applied left to right. It never touches the id or the
      creation time. */
  function AssignEventAll(e: Event, sets: seq<EventAssignment>): (r: Event)
    ensures r.id == e.id && r.createdAt == e.createdAt
  {
    if sets == [] then e else AssignEvent(AssignEventAll(e, sets[..|sets| - 1]), sets[|sets| - 1])
  }

  /** Running two SET lists one after the other is running their
      concatenation. */
  lemma {:induction false} AssignEventAllAppend(e: Event, a: seq<EventAssignment>, b: seq<EventAssignment>)
    ensures AssignEventAll(e, a + b) == AssignEventAll(AssignEventAll(e, a), b)
  {
    if b == [] {
      assert a + b == a;
    } else {
      AssignEventAllAppend(e, a, b[..|b| - 1]);
      assert (a + b)[..|a + b| - 1] == a + b[..|b| - 1];
    }
  }

  /** Extending a SET list by one item applies that item last. */
  lemma AssignEventAllSnoc(e: Event, a: seq<EventAssignment>, x: EventAssignment)
    ensures AssignEventAll(e, a + [x]) == AssignEvent(AssignEventAll(e, a), x)
  {
    assert (a + [x])[..|a + [x]| - 1] == a;
  }

  function AssignContact(c: Contact, a: ContactAssignment): Contact {
    match a
    case SetName(n) => c.(name := n)
    case SetEmail(m) => c.(email := Some(m))
    case SetPhone(p) => c.(phone := Some(p))
    case SetNotes(n) => c.(notes := Some(n))
    case SetContactUpdatedAt(t) => c.(updatedAt := t)
  }

  /** The SET list applied left to right. It never touches the id or the
      creation time. */
  function AssignContactAll(c: Contact, sets: seq<ContactAssignment>): (r: Contact)
    ensures r.id == c.id && r.createdAt == c.createdAt
  {
    if sets == [] then c else AssignContact(AssignContactAll(c, sets[..|sets| - 1]), sets[|sets| - 1])
  }

  /** Running two SET lists one after the other is running their
      concatenation. */
  lemma {:induction false} AssignContactAllAppend(c: Contact, a: seq<ContactAssignment>, b: seq<ContactAssignment>)
    ensures AssignContactAll(c, a + b) == AssignContactAll(AssignContactAll(c, a), b)
  {
    if b == [] {
      assert a + b == a;
    } else {
      AssignContactAllAppend(c, a, b[..|b| - 1]);
      assert (a + b)[..|a + b| - 1] == a + b[..|b| - 1];
    }
  }

  /** `DELETE FROM event_contacts WHERE event_id = ?`: every link of the event
      goes and every other link stays, in order. */
  /** Extending a SET list by one item applies that item last. */
  lemma AssignContactAllSnoc(c: Contact, a: seq<ContactAssignment>, x: ContactAssignment)
    ensures AssignContactAll(c, a + [x]) == AssignContact(AssignContactAll(c, a), x)
  {
    assert (a + [x])[..|a + [x]| - 1] == a;
  }

  function RemoveLinksOf(links: seq<Link>, eventId: int): seq<Link> {
    if links == [] then []
    else (if links[0].eventId == eventId then [] else [links[0]]) + RemoveLinksOf(links[1..], eventId)
  }

  /** What stays is exactly the links of other events. */
  lemma {:induction false} RemoveLinksOfMembers(links: seq<Link>, eventId: int)
    ensures forall l: Link :: l in RemoveLinksOf(links, eventId) <==> l in links && l.eventId != eventId
  {
    if links != [] {
      RemoveLinksOfMembers(links[1..], eventId);
      assert links == [links[0]] + links[1..];
    }
  }

  /** A link of another event stays as often as it was there. */
  lemma {:induction false} RemoveLinksOfKeepsCount(links: seq<Link>, eventId: int, l: Link)
    requires l.eventId != eventId
    ensures multiset(RemoveLinksOf(links, eventId))[l] == multiset(links)[l]
  {
    if links != [] {
      RemoveLinksOfKeepsCount(links[1..], eventId, l);
      assert links == [links[0]] + links[1..];
    }
  }

  lemma RemoveLinksOfCons(x: Link, rest: seq<Link>, eventId: int)
    ensures RemoveLinksOf([x] + rest, eventId)
            == (if x.eventId == eventId then [] else [x]) + RemoveLinksOf(rest, eventId)
  {
    assert ([x] + rest)[1..] == rest;
  }

  /** Removing by event id distributes over concatenation. */
  lemma {:induction false} RemoveLinksOfAppend(a: seq<Link>, b: seq<Link>, eventId: int)
    ensures RemoveLinksOf(a + b, eventId) == RemoveLinksOf(a, eventId) + RemoveLinksOf(b, eventId)
  {
    if a == [] {
      assert a + b == b;
    } else {
      assert a + b == [a[0]] + (a[1..] + b);
      assert a == [a[0]] + a[1..];
      RemoveLinksOfCons(a[0], a[1..] + b, eventId);
      RemoveLinksOfCons(a[0], a[1..], eventId);
      RemoveLinksOfAppend(a[1..], b, eventId);
    }
  }

  /** Links of other events pass through untouched. */
  lemma {:induction false} RemoveLinksOfNone(links: seq<Link>, eventId: int)
    requires forall l :: l in links ==> l.eventId != eventId
    ensures RemoveLinksOf(links, eventId) == links
  {
    if links != [] {
      RemoveLinksOfNone(links[1..], eventId);
    }
  }

  /** Links of the event all go. */
  lemma {:induction false} RemoveLinksOfOnly(links: seq<Link>, eventId: int)
    requires forall l :: l in links ==> l.eventId == eventId
    ensures RemoveLinksOf(links, eventId) == []
  {
    if links != [] {
      RemoveLinksOfOnly(links[1..], eventId);
    }
  }

  /** The whole content of the store at one moment. */
  datatype Tables = Tables(
    contacts: map<int, Contact>,
    events: map<int, Event>,
    links: seq<Link>,
    nextContactId: int,
    nextEventId: int)
  {
    /** Rows are filed under their own id; every id is below the counter that
        will hand out the next one; no link names an event id not yet handed
        out. */
    ghost predicate Valid() {
      && 1 <= nextContactId
      && 1 <= nextEventId
      && (forall k :: k in contacts ==> contacts[k].id == k && 1 <= k < nextContactId)
      && (forall k :: k in events ==> events[k].id == k && 1 <= k < nextEventId)
      && (forall l :: l in links ==> l.eventId < nextEventId)
    }
  }

  class Database {
    var contacts: map<int, Contact>
    var events: map<int, Event>
    var links: seq<Link>
    var nextContactId: int
    var nextEventId: int
    /** The content at `beginTransaction`, while a transaction is open. */
    var savepoint: Option<Tables>

    function Snapshot(): Tables
      reads this
    {
      Tables(contacts, events, links, nextContactId, nextEventId)
    }

    ghost predicate Valid()
      reads this
    {
      Snapshot().Valid() && (savepoint.Some? ==> savepoint.value.Valid())
    }

    /** Valid, and no transaction open. */
    ghost predicate Idle()
      reads this
    {
      Valid() && savepoint.None?
    }

    /** A fresh, empty schema. */
    constructor ()
      ensures Idle() && Snapshot() == Tables(map[], map[], [], 1, 1)
    {
      contacts, events, links := map[], map[], [];
      nextContactId, nextEventId := 1, 1;
      savepoint := None;
    }

    method BeginTransaction()
      requires Idle()
      modifies this
      ensures Valid() && savepoint == Some(Tables(contacts, events, links, nextContactId, nextEventId))
      ensures contacts == old(contacts) && events == old(events) && links == old(links)
      ensures nextContactId == old(nextContactId) && nextEventId == old(nextEventId)
    {
      savepoint := Some(Snapshot());
    }

    method Commit()
      requires Valid() && savepoint.Some?
      modifies this
      ensures Idle() && Snapshot() == old(Snapshot())
    {
      savepoint := None;
    }

    /** Every change since `BeginTransaction` is undone, the counters too. */
    method RollBack()
      requires Valid() && savepoint.Some?
      modifies this
      ensures Idle() && Snapshot() == old(savepoint.value)
      ensures contacts == old(savepoint.value.contacts) && events == old(savepoint.value.events)
      ensures links == old(savepoint.value.links)
      ensures nextContactId == old(savepoint.value.nextContactId) && nextEventId == old(savepoint.value.nextEventId)
    {
      var t := savepoint.value;
      contacts, events, links := t.contacts, t.events, t.links;
      nextContactId, nextEventId := t.nextContactId, t.nextEventId;
      savepoint := None;
    }

    /** `INSERT INTO events ...` followed by `lastInsertId()`. */
    method InsertEvent(heading: string, description: Option<string>, startTime: int, endTime: int,
                       createdAt: int, updatedAt: int) returns (id: int)
      requires Valid()
      modifies this
      ensures Valid() && savepoint == old(savepoint)
      ensures id == old(nextEventId) && id !in old(events)
      ensures events == old(events)[id := Event(id, heading, description, startTime, endTime, createdAt, updatedAt)]
      ensures nextEventId == id + 1
      ensures contacts == old(contacts) && links == old(links) && nextContactId == old(nextContactId)
    {
      id := nextEventId;
      events := events[id := Event(id, heading, description, startTime, endTime, createdAt, updatedAt)];
      nextEventId := nextEventId + 1;
    }

    /** `INSERT INTO event_contacts (event_id, contact_id) VALUES (?, ?)`; the
        contact id is not checked against `contacts`. */
    method InsertLink(eventId: int, contactId: int)
      requires Valid() && eventId < nextEventId
      modifies this
      ensures Valid() && savepoint == old(savepoint)
      ensures links == old(links) + [Link(eventId, contactId)]
      ensures contacts == old(contacts) && events == old(events)
      ensures nextContactId == old(nextContactId) && nextEventId == old(nextEventId)
    {
      links := links + [Link(eventId, contactId)];
    }

    /** `DELETE FROM event_contacts WHERE event_id = ?`. */
    method DeleteLinksOf(eventId: int)
      requires Valid()
      modifies this
      ensures Valid() && savepoint == old(savepoint)
      ensures links == RemoveLinksOf(old(links), eventId)
      ensures contacts == old(contacts) && events == old(events)
      ensures nextContactId == old(nextContactId) && nextEventId == old(nextEventId)
    {
      RemoveLinksOfMembers(links, eventId);
      links := RemoveLinksOf(links, eventId);
    }

    /** `DELETE FROM events WHERE id = ?`, returning `rowCount()`. */
    method DeleteEvent(id: int) returns (count: nat)
      requires Valid()
      modifies this
      ensures Valid() && savepoint == old(savepoint)
      ensures count == if id in old(events) then 1 else 0
      ensures events == old(events) - {id}
      ensures contacts == old(contacts) && links == old(links)
      ensures nextContactId == old(nextContactId) && nextEventId == old(nextEventId)
    {
      count := if id in events then 1 else 0;
      events := events - {id};
    }

    /** `UPDATE events SET ... WHERE id = ?`, returning the number of rows the
        WHERE clause matched. */
    method UpdateEvent(id: int, sets: seq<EventAssignment>) returns (count: nat)
      requires Valid()
      modifies this
      ensures Valid() && savepoint == old(savepoint)
      ensures count == if id in old(events) then 1 else 0
      ensures events == if id in old(events) then old(events)[id := AssignEventAll(old(events)[id], sets)] else old(events)
      ensures contacts == old(contacts) && links == old(links)
      ensures nextContactId == old(nextContactId) && nextEventId == old(nextEventId)
    {
      if id in events {
        events := events[id := AssignEventAll(events[id], sets)];
        count := 1;
      } else {
        count := 0;
      }
    }

    /** `INSERT INTO contacts ...` followed by `lastInsertId()`. */
    method InsertContact(name: string, email: Option<string>, phone: Option<string>, notes: Option<string>,
                         createdAt: int, updatedAt: int) returns (id: int)
      requires Valid()
      modifies this
      ensures Valid() && savepoint == old(savepoint)
      ensures id == old(nextContactId) && id !in old(contacts)
      ensures contacts == old(contacts)[id := Contact(id, name, email, phone, notes, createdAt, updatedAt)]
      ensures nextContactId == id + 1
      ensures events == old(events) && links == old(links) && nextEventId == old(nextEventId)
    {
      id := nextContactId;
      contacts := contacts[id := Contact(id, name, email, phone, notes, createdAt, updatedAt)];
      nextContactId := nextContactId + 1;
    }

    /** `UPDATE contacts SET ... WHERE id = ?`, returning the number of rows the
        WHERE clause matched. */
    method UpdateContact(id: int, sets: seq<ContactAssignment>) returns (count: nat)
      requires Valid()
      modifies this
      ensures Valid() && savepoint == old(savepoint)
      ensures count == if id in old(contacts) then 1 else 0
      ensures contacts == if id in old(contacts) then old(contacts)[id := AssignContactAll(old(contacts)[id], sets)] else old(contacts)
      ensures events == old(events) && links == old(links)
      ensures nextContactId == old(nextContactId) && nextEventId == old(nextEventId)
    {
      if id in contacts {
        contacts := contacts[id := AssignContactAll(contacts[id], sets)];
        count := 1;
      } else {
        count := 0;
      }
    }

    /** `DELETE FROM contacts WHERE id = ?`, returning `rowCount()`. Links are
        not touched. */
    method DeleteContact(id: int) returns (count: nat)
      requires Valid()
      modifies this
      ensures Valid() && savepoint == old(savepoint)
      ensures count == if id in old(contacts) then 1 else 0
      ensures contacts == old(contacts) - {id}
      ensures events == old(events) && links == old(links)
      ensures nextContactId == old(nextContactId) && nextEventId == old(nextEventId)
    {
      count := if id in contacts then 1 else 0;
      contacts := contacts - {id};
    }
  }

  /** The keys of the rows a WHERE condition selects. */
  function Where<T>(m: map<int, T>, cond: T -> bool): set<int> {
    set k | k in m && cond(m[k])
  }

  /** The condition of a WHERE-less `SELECT`: every row is kept. */
  predicate EveryRow<T>(x: T) {
    true
  }

  lemma WhereEveryRow<T>(m: map<int, T>)
    ensures Where(m, EveryRow) == m.Keys
  {
    forall k | k in m ensures k in Where(m, EveryRow) {
      assert EveryRow(m[k]);
    }
  }

  /** The keys among `keys` whose row is `x`. */
  ghost function KeysHolding<T>(m: map<int, T>, keys: set<int>, x: T): set<int> {
    set k | k in keys && k in m && m[k] == x
  }

  /** `rows` lists the rows of `m` filed under `keys`, each exactly once, in
      some order: every value occurs as often as there are selected keys
      holding it (two keys holding equal rows give two equal rows). */
  ghost predicate ListsExactly<T(!new)>(rows: seq<T>, m: map<int, T>, keys: set<int>) {
    && keys <= m.Keys
    && |rows| == |keys|
    && forall x :: multiset(rows)[x] == |KeysHolding(m, keys, x)|
  }

  /** A listing holds a row exactly when some selected key holds it. */
  lemma ListsExactlyMembers<T(!new)>(rows: seq<T>, m: map<int, T>, keys: set<int>, x: T)
    requires ListsExactly(rows, m, keys)
    ensures x in rows <==> exists k :: k in keys && k in m && m[k] == x
  {
    assert x in rows <==> multiset(rows)[x] > 0;
    if exists k :: k in keys && k in m && m[k] == x {
      var k :| k in keys && k in m && m[k] == x;
      assert k in KeysHolding(m, keys, x);
    }
    if x in rows {
      assert KeysHolding(m, keys, x) != {};
      var k :| k in KeysHolding(m, keys, x);
    }
  }

  /** Selecting one more key adds its row once. */
  lemma ListsExactlyAdd<T(!new)>(rows: seq<T>, m: map<int, T>, keys: set<int>, k: int)
    requires ListsExactly(rows, m, keys)
    requires k in m && k !in keys
    ensures ListsExactly(rows + [m[k]], m, keys + {k})
  {
    forall x ensures multiset(rows + [m[k]])[x] == |KeysHolding(m, keys + {k}, x)| {
      if m[k] == x {
        assert KeysHolding(m, keys + {k}, x) == KeysHolding(m, keys, x) + {k};
      } else {
        assert KeysHolding(m, keys + {k}, x) == KeysHolding(m, keys, x);
      }
    }
  }

  /** A permutation of a listing is a listing of the same rows. */
  lemma ListsExactlyPermuted<T(!new)>(rows: seq<T>, other: seq<T>, m: map<int, T>, keys: set<int>)
    requires ListsExactly(rows, m, keys)
    requires multiset(other) == multiset(rows)
    ensures ListsExactly(other, m, keys)
  {
    assert |other| == |multiset(other)| == |multiset(rows)| == |rows|;
  }

  /** Membership behind a predicate name, so that `var k :| IsKey(k, keys)`
      has a trigger to pick a witness by; a bare `var k :| k in keys` does not
      verify under the contradictory-assumptions check. */
  predicate IsKey(k: int, keys: set<int>) {
    k in keys
  }

  /** A non-empty key set has a member to pick. */
  lemma SomeKey(keys: set<int>)
    ensures keys == {} || exists k :: IsKey(k, keys)
  {
    if !exists k :: IsKey(k, keys) {
      forall k ensures k !in keys {
        assert !IsKey(k, keys);
      }
      assert keys == {};
    }
  }

  /** `SELECT ... FROM table WHERE cond`: visits every row once, in no
      particular order, and keeps those meeting the condition. */
  method Scan<T(!new)>(m: map<int, T>, cond: T -> bool) returns (rows: seq<T>)
    ensures ListsExactly(rows, m, Where(m, cond))
  {
    rows := [];
    var todo := m.Keys;
    while todo != {}
      invariant todo <= m.Keys
      invariant ListsExactly(rows, m, Where(m, cond) - todo)
      decreases |todo|
    {
      SomeKey(todo);
      var k :| IsKey(k, todo);
      if cond(m[k]) {
        assert k !in Where(m, cond) - todo;
        ListsExactlyAdd(rows, m, Where(m, cond) - todo, k);
        assert Where(m, cond) - (todo - {k}) == (Where(m, cond) - todo) + {k};
        rows := rows + [m[k]];
      } else {
        assert Where(m, cond) - (todo - {k}) == Where(m, cond) - todo;
      }
      todo := todo - {k};
    }
  }
}
