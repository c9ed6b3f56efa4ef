/** The address-book service: creating a contact with a trimmed name,
    listing under a caller-chosen but allow-listed sort, searching by one
    allow-listed field (the name by all of its space-separated terms, the
    other fields exactly), partial update, and delete. */
module Contacts {
  import opened Common
  import opened PhpText
  import opened SqlLike
  import opened Ordering
  import opened Db

  /** The columns `list` and `find` select: `id, name, email, phone, notes`. */
  datatype ContactView = ContactView(
    id: int,
    name: string,
    email: Option<string>,
    phone: Option<string>,
    notes: Option<string>)

  function View(c: Contact): ContactView {
    ContactView(c.id, c.name, c.email, c.phone, c.notes)
  }

  function Views(s: seq<Contact>): seq<ContactView> {
    seq(|s|, i requires 0 <= i < |s| => View(s[i]))
  }

  /** What a call answers: a row listing, or one of the fixed messages. */
  datatype Reply =
    | Created(name: string, id: int)
    | EmptyName
    | Rows(rows: seq<ContactView>)
    | NoContacts
    | InvalidField
    | NoMatch
    | NoFields
    | Updated(id: int)
    | UpdateMissed(id: int)
    | Deleted(id: int)
    | DeleteMissed(id: int)

  predicate IsError(r: Reply) {
    r.EmptyName? || r.InvalidField? || r.NoFields? || r.UpdateMissed? || r.DeleteMissed?
  }

  /** An error text: the fixed marker, then the explanation. */
  function Err(why: string): string {
    "Error: " + why
  }

  /** The text returned for every reply that is not a row listing. The name
      in a creation message is the name as given, before trimming. */
  function Message(r: Reply): string
    requires !r.Rows?
  {
    match r
    case Created(name, id) => "Successfully created contact '" + name + "' with ID " + IntToString(id) + "."
    case EmptyName => Err("Contact name cannot be empty.")
    case NoContacts => "No contacts found."
    case InvalidField => Err("Invalid search field specified. Allowed fields are: id, name, email, phone.")
    case NoMatch => "No contacts found matching that term."
    case NoFields => Err("No fields provided to update.")
    case Updated(id) => "Successfully updated contact ID " + IntToString(id) + "."
    case UpdateMissed(id) => Err("Contact with ID " + IntToString(id) + " not found or no changes made.")
    case Deleted(id) => "Successfully deleted contact ID " + IntToString(id) + "."
    case DeleteMissed(id) => Err("Contact with ID " + IntToString(id) + " not found.")
  }

  // ---------------------------------------------------------------------
  // ORDER BY for `list`

  /** The columns `list` may sort by. */
  datatype Column = IdColumn | NameColumn | EmailColumn | PhoneColumn | CreatedAtColumn | UpdatedAtColumn

  const OrderColumns: seq<string> := ["id", "name", "email", "phone", "created_at", "updated_at"]

  function ColumnName(col: Column): (n: string)
    ensures n in OrderColumns
  {
    match col
    case IdColumn => "id"
    case NameColumn => "name"
    case EmailColumn => "email"
    case PhoneColumn => "phone"
    case CreatedAtColumn => "created_at"
    case UpdatedAtColumn => "updated_at"
  }

  /** The column an allow-listed name denotes; nothing for any other text. */
  function ColumnNamed(n: string): (col: Option<Column>)
    ensures col.Some? <==> n in OrderColumns
    ensures col.Some? ==> ColumnName(col.value) == n
  {
    if n == "id" then Some(IdColumn)
    else if n == "name" then Some(NameColumn)
    else if n == "email" then Some(EmailColumn)
    else if n == "phone" then Some(PhoneColumn)
    else if n == "created_at" then Some(CreatedAtColumn)
    else if n == "updated_at" then Some(UpdatedAtColumn)
    else None
  }

  /** The value a row sorts by in a column; email and phone may be NULL. */
  function ColumnKey(col: Column, c: Contact): Key {
    match col
    case IdColumn => Num(c.id)
    case NameColumn => Text(Some(c.name))
    case EmailColumn => Text(c.email)
    case PhoneColumn => Text(c.phone)
    case CreatedAtColumn => Num(c.createdAt)
    case UpdatedAtColumn => Num(c.updatedAt)
  }

  function KeyOf(col: Column): Contact -> Key {
    (c: Contact) => ColumnKey(col, c)
  }

  datatype SortOrder = SortOrder(column: Column, desc: bool)

  /** The sort `list` applies: the column the lower-cased `orderBy` names if
      it is allow-listed, `name` otherwise; descending exactly when the
      upper-cased `order` is `DESC`. */
  function ResolveOrder(orderBy: string, order: string): (s: SortOrder)
    ensures ToLower(orderBy) in OrderColumns ==> ColumnName(s.column) == ToLower(orderBy)
    ensures ToLower(orderBy) !in OrderColumns ==> s.column == NameColumn
    ensures s.desc <==> ToUpper(order) == "DESC"
  {
    SortOrder(ColumnNamed(ToLower(orderBy)).GetOr(NameColumn), ToUpper(order) == "DESC")
  }

  /** Letter case in either argument does not change the sort. */
  lemma ResolveOrderIgnoresCase(orderBy: string, order: string)
    ensures ResolveOrder(ToLower(orderBy), ToLower(order)) == ResolveOrder(orderBy, order)
  {
    ToLowerIdempotent(orderBy);
    ToUpperOfLower(order);
  }

  // ---------------------------------------------------------------------
  // WHERE for `find`

  /** The fields `find` may search by. */
  datatype Field = IdField | NameField | EmailField | PhoneField

  const SearchFields: seq<string> := ["id", "name", "email", "phone"]

  function FieldName(f: Field): (n: string)
    ensures n in SearchFields
  {
    match f
    case IdField => "id"
    case NameField => "name"
    case EmailField => "email"
    case PhoneField => "phone"
  }

  /** The field an allow-listed name denotes; nothing for any other text. */
  function FieldNamed(n: string): (f: Option<Field>)
    ensures f.Some? <==> n in SearchFields
    ensures f.Some? ==> FieldName(f.value) == n
  {
    if n == "id" then Some(IdField)
    else if n == "name" then Some(NameField)
    else if n == "email" then Some(EmailField)
    else if n == "phone" then Some(PhoneField)
    else None
  }

  /** The pieces of a name search that become `name LIKE` conditions: each
      piece trimmed, those that are then empty (or "0") dropped. */
  function KeptTerms(parts: seq<string>): (terms: seq<string>)
    ensures forall t :: t in terms ==> !PhpEmpty(t) && exists p :: p in parts && t == Trim(p)
    ensures forall p :: p in parts && !PhpEmpty(Trim(p)) ==> Trim(p) in terms
  {
    if parts == [] then []
    else
      assert parts == [parts[0]] + parts[1..];
      var t := Trim(parts[0]);
      (if PhpEmpty(t) then [] else [t]) + KeptTerms(parts[1..])
  }

  /** The terms of a name search: the value split at every single space,
      then `KeptTerms`. Each is non-empty, not "0", already trimmed and free
      of spaces. */
  function SearchTerms(value: string): (terms: seq<string>)
    ensures forall t :: t in terms ==> !PhpEmpty(t) && ' ' !in t && Trim(t) == t
  {
    var parts := Explode(' ', value);
    var terms := KeptTerms(parts);
    assert forall t :: t in terms ==> ' ' !in t && Trim(t) == t by {
      forall t | t in terms
        ensures ' ' !in t && Trim(t) == t
      {
        var p :| p in parts && t == Trim(p);
        TrimKeepsAbsent(p, ' ');
        TrimIdempotent(p);
      }
    }
    terms
  }

  /** The conjunction of `name LIKE '%term%'` over all terms. */
  predicate MatchesAll(name: string, terms: seq<string>) {
    forall t :: t in terms ==> Like(name, Pattern(t))
  }

  /** The WHERE condition `find` applies for a field and a value. A name
      search with no terms matches nothing; an id search compares the value
      read as an integer; email and phone compare exactly, and a NULL column
      equals no value. */
  function Matcher(f: Field, value: string): Contact -> bool {
    match f
    case IdField => (c: Contact) => ParseInt(value) == Some(c.id)
    case NameField => (c: Contact) => SearchTerms(value) != [] && MatchesAll(c.name, SearchTerms(value))
    case EmailField => (c: Contact) => c.email == Some(value)
    case PhoneField => (c: Contact) => c.phone == Some(value)
  }

  // ---------------------------------------------------------------------
  // SET for `update`

  /** An update call that supplies no field at all. */
  predicate NoneSupplied(name: Option<string>, email: Option<string>, phone: Option<string>,
                         notes: Option<string>) {
    name.None? && email.None? && phone.None? && notes.None?
  }

  /** The SET list `update` builds from the supplied fields, in the order
      name, email, phone, notes. */
  function Assignments(name: Option<string>, email: Option<string>, phone: Option<string>,
                       notes: Option<string>): seq<ContactAssignment>
  {
    (if name.Some? then [SetName(name.value)] else [])
    + (if email.Some? then [SetEmail(email.value)] else [])
    + (if phone.Some? then [SetPhone(phone.value)] else [])
    + (if notes.Some? then [SetNotes(notes.value)] else [])
  }

  /** The row as a partial update leaves it: each supplied field replaced,
      each absent one kept, and the modification time set to `now`. */
  function Patch(c: Contact, name: Option<string>, email: Option<string>, phone: Option<string>,
                 notes: Option<string>, now: int): Contact
  {
    c.(name := name.GetOr(c.name),
       email := if email.Some? then email else c.email,
       phone := if phone.Some? then phone else c.phone,
       notes := if notes.Some? then notes else c.notes,
       updatedAt := now)
  }

  /** The SET list is empty exactly when no field is supplied. */
  lemma AssignmentsEmpty(name: Option<string>, email: Option<string>, phone: Option<string>,
                         notes: Option<string>)
    ensures Assignments(name, email, phone, notes) == [] <==> NoneSupplied(name, email, phone, notes)
  {
    if !NoneSupplied(name, email, phone, notes) {
      assert |Assignments(name, email, phone, notes)| > 0;
    }
  }

  /** One optional item of the SET list: a supplied name replaces the name
      of the row the list has built so far, an absent one keeps it. */
  lemma StepName(c: Contact, a: seq<ContactAssignment>, name: Option<string>)
    ensures var r := AssignContactAll(c, a);
            AssignContactAll(c, a + (if name.Some? then [SetName(name.value)] else []))
            == r.(name := name.GetOr(r.name))
  {
    if name.Some? { AssignContactAllSnoc(c, a, SetName(name.value)); } else { assert a + [] == a; }
  }

  lemma StepEmail(c: Contact, a: seq<ContactAssignment>, email: Option<string>)
    ensures var r := AssignContactAll(c, a);
            AssignContactAll(c, a + (if email.Some? then [SetEmail(email.value)] else []))
            == r.(email := if email.Some? then email else r.email)
  {
    if email.Some? { AssignContactAllSnoc(c, a, SetEmail(email.value)); } else { assert a + [] == a; }
  }

  lemma StepPhone(c: Contact, a: seq<ContactAssignment>, phone: Option<string>)
    ensures var r := AssignContactAll(c, a);
            AssignContactAll(c, a + (if phone.Some? then [SetPhone(phone.value)] else []))
            == r.(phone := if phone.Some? then phone else r.phone)
  {
    if phone.Some? { AssignContactAllSnoc(c, a, SetPhone(phone.value)); } else { assert a + [] == a; }
  }

  lemma StepNotes(c: Contact, a: seq<ContactAssignment>, notes: Option<string>)
    ensures var r := AssignContactAll(c, a);
            AssignContactAll(c, a + (if notes.Some? then [SetNotes(notes.value)] else []))
            == r.(notes := if notes.Some? then notes else r.notes)
  {
    if notes.Some? { AssignContactAllSnoc(c, a, SetNotes(notes.value)); } else { assert a + [] == a; }
  }

  /** Running the SET list, then `updated_at = now`, on a row is the
      partial update of that row. */
  lemma AssignmentsPatch(c: Contact, name: Option<string>, email: Option<string>, phone: Option<string>,
                         notes: Option<string>, now: int)
    ensures AssignContactAll(c, Assignments(name, email, phone, notes) + [SetContactUpdatedAt(now)])
            == Patch(c, name, email, phone, notes, now)
  {
    var s1 := if name.Some? then [SetName(name.value)] else [];
    var s2 := if email.Some? then [SetEmail(email.value)] else [];
    var s3 := if phone.Some? then [SetPhone(phone.value)] else [];
    var s4 := if notes.Some? then [SetNotes(notes.value)] else [];
    StepName(c, [], name);
    assert [] + s1 == s1;
    StepEmail(c, s1, email);
    StepPhone(c, s1 + s2, phone);
    StepNotes(c, s1 + s2 + s3, notes);
    AssignContactAllSnoc(c, s1 + s2 + s3 + s4, SetContactUpdatedAt(now));
  }

  class Contacts {
    const db: Database

    constructor (db: Database)
      ensures this.db == db
    {
      this.db := db;
    }

    /** Rejects a name that trims to nothing (or to "0"); otherwise inserts
        the row with the trimmed name and both timestamps `now`. */
    method Create(name: string, email: Option<string>, phone: Option<string>, notes: Option<string>,
                  now: int) returns (r: Reply)
      requires db.Idle()
      modifies db
      ensures db.Idle()
      ensures PhpEmpty(Trim(name)) ==> r == EmptyName && db.Snapshot() == old(db.Snapshot())
      ensures !PhpEmpty(Trim(name)) ==>
                var id := old(db.nextContactId);
                && r == Created(name, id)
                && id !in old(db.contacts)
                && db.contacts == old(db.contacts)[id := Contact(id, Trim(name), email, phone, notes, now, now)]
                && db.events == old(db.events) && db.links == old(db.links)
                && db.nextContactId == id + 1 && db.nextEventId == old(db.nextEventId)
    {
      if PhpEmpty(Trim(name)) {
        return EmptyName;
      }
      var id := db.InsertContact(Trim(name), email, phone, notes, now, now);
      r := Created(name, id);
    }

    /** Every contact, in the order `ResolveOrder` picks. */
    method List(orderBy: string, order: string) returns (r: Reply)
      ensures r.Rows? || r.NoContacts?
      ensures r.NoContacts? <==> db.contacts.Keys == {}
      ensures r.Rows? ==>
                var o := ResolveOrder(orderBy, order);
                exists s :: && ListsExactly(s, db.contacts, db.contacts.Keys)
                            && Sorted(s, KeyOf(o.column), o.desc)
                            && r.rows == Views(s)
    {
      var o := ResolveOrder(orderBy, order);
      var rows := Scan(db.contacts, EveryRow);
      WhereEveryRow(db.contacts);
      var sorted := SortBy(rows, KeyOf(o.column), o.desc);
      ListsExactlyPermuted(rows, sorted, db.contacts, db.contacts.Keys);
      if |sorted| == 0 {
        r := NoContacts;
      } else {
        r := Rows(Views(sorted));
      }
    }

    /** The contacts whose allow-listed field matches the value, in no
        particular order. */
    method Find(field: string, value: string) returns (r: Reply)
      ensures r.Rows? || r.InvalidField? || r.NoMatch?
      ensures r.InvalidField? <==> ToLower(field) !in SearchFields
      ensures ToLower(field) in SearchFields ==>
                var m := Matcher(FieldNamed(ToLower(field)).value, value);
                && (r.NoMatch? <==> Where(db.contacts, m) == {})
                && (r.Rows? ==> exists s :: ListsExactly(s, db.contacts, Where(db.contacts, m)) && r.rows == Views(s))
    {
      var f := FieldNamed(ToLower(field));
      if f.None? {
        return InvalidField;
      }
      var m := Matcher(f.value, value);
      if f.value == NameField && SearchTerms(value) == [] {
        forall k | k in db.contacts ensures k !in Where(db.contacts, m) {
          assert !m(db.contacts[k]);
        }
        return NoMatch;
      }
      var rows := Scan(db.contacts, m);
      if |rows| == 0 {
        r := NoMatch;
      } else {
        assert rows[0] in rows;
        r := Rows(Views(rows));
      }
    }

    /** Builds the SET list from the supplied fields, adds the modification
        time, and updates the row with that id. Nothing is re-validated, not
        even an empty name. */
    method Update(id: int, name: Option<string>, email: Option<string>, phone: Option<string>,
                  notes: Option<string>, now: int) returns (r: Reply)
      requires db.Idle()
      modifies db
      ensures db.Idle()
      ensures NoneSupplied(name, email, phone, notes) ==> r == NoFields && db.Snapshot() == old(db.Snapshot())
      ensures !NoneSupplied(name, email, phone, notes) && id in old(db.contacts) ==>
                && r == Updated(id)
                && db.contacts == old(db.contacts)[id := Patch(old(db.contacts)[id], name, email, phone, notes, now)]
      ensures !NoneSupplied(name, email, phone, notes) && id !in old(db.contacts) ==>
                r == UpdateMissed(id) && db.contacts == old(db.contacts)
      ensures db.events == old(db.events) && db.links == old(db.links)
      ensures db.nextContactId == old(db.nextContactId) && db.nextEventId == old(db.nextEventId)
    {
      var sets: seq<ContactAssignment> := [];
      if name.Some? {
        sets := sets + [SetName(name.value)];
      }
      if email.Some? {
        sets := sets + [SetEmail(email.value)];
      }
      if phone.Some? {
        sets := sets + [SetPhone(phone.value)];
      }
      if notes.Some? {
        sets := sets + [SetNotes(notes.value)];
      }
      assert sets == Assignments(name, email, phone, notes);
      AssignmentsEmpty(name, email, phone, notes);
      if sets == [] {
        return NoFields;
      }
      sets := sets + [SetContactUpdatedAt(now)];
      if id in db.contacts {
        AssignmentsPatch(db.contacts[id], name, email, phone, notes, now);
      }
      var count := db.UpdateContact(id, sets);
      if count > 0 {
        r := Updated(id);
      } else {
        r := UpdateMissed(id);
      }
    }

    /** Removes the row with that id; the links naming it stay. */
    method Delete(id: int) returns (r: Reply)
      requires db.Idle()
      modifies db
      ensures db.Idle()
      ensures id in old(db.contacts) ==> r == Deleted(id) && db.contacts == old(db.contacts) - {id}
      ensures id !in old(db.contacts) ==> r == DeleteMissed(id) && db.contacts == old(db.contacts)
      ensures db.events == old(db.events) && db.links == old(db.links)
      ensures db.nextContactId == old(db.nextContactId) && db.nextEventId == old(db.nextEventId)
    {
      var count := db.DeleteContact(id);
      if count > 0 {
        r := Deleted(id);
      } else {
        r := DeleteMissed(id);
      }
    }
  }

  /** Every error reply, and only those, reads "Error: ...". */
  lemma ErrorRepliesSayError(r: Reply)
    requires !r.Rows?
    ensures IsError(r) <==> "Error: " <= Message(r)
  {
    if IsError(r) {
      assert Message(r)[..7] == "Error: ";
    } else {
      assert Message(r)[0] != 'E';
    }
  }

  /** The id can be read back from a creation message: the digits between
      "with ID " and the final full stop, whatever the name holds. */
  lemma CreatedMessageCarriesId(name: string, id: int)
    ensures var m := Message(Created(name, id));
            var d := IntToString(id);
            |m| > |d| + 9 && m[|m| - |d| - 10..|m| - |d| - 1] == " with ID " && m[|m| - 1] == '.'
            && ParseInt(m[|m| - |d| - 1..|m| - 1]) == Some(id)
  {
    var m := Message(Created(name, id));
    var d := IntToString(id);
    var front := "Successfully created contact '" + name + "'";
    assert m == front + " with ID " + d + ".";
    assert m[|m| - |d| - 1..|m| - 1] == d;
    assert m[|m| - |d| - 10..|m| - |d| - 1] == " with ID ";
    ParseIntToString(id);
  }

  /** The field check ignores letter case: a field name written in capitals
      selects the same field as its lower-case spelling. */
  lemma FieldIgnoresCase(field: string)
    ensures FieldNamed(ToLower(ToUpper(field))) == FieldNamed(ToLower(field))
  {
    ToLowerOfUpper(field);
  }

  /** A term without wildcards matches exactly the names holding it: a name
      search is the conjunction of substring tests. */
  lemma NameSearchIsSubstringSearch(name: string, value: string)
    requires forall t :: t in SearchTerms(value) ==> Literal(t)
    ensures MatchesAll(name, SearchTerms(value)) <==> forall t :: t in SearchTerms(value) ==> Contains(name, t)
  {
    forall t | t in SearchTerms(value)
      ensures Like(name, Pattern(t)) <==> Contains(name, t)
    {
      LikeIsContains(name, t);
    }
  }

  /** The order of the words in a name search does not matter: a value
      made of the same space-free words in another order finds the same
      rows. */
  lemma NameSearchOrderIndependent(words: seq<string>, shuffled: seq<string>, c: Contact)
    requires |words| >= 1
    requires multiset(shuffled) == multiset(words)
    requires forall w :: w in words ==> ' ' !in w
    ensures Matcher(NameField, Implode(' ', words))(c) == Matcher(NameField, Implode(' ', shuffled))(c)
  {
    assert forall w :: w in shuffled <==> w in words by {
      forall w ensures w in shuffled <==> w in words {
        assert w in shuffled <==> w in multiset(shuffled);
        assert w in words <==> w in multiset(words);
      }
    }
    assert |shuffled| == |multiset(shuffled)| == |multiset(words)| == |words|;
    ExplodeImplode(' ', words);
    ExplodeImplode(' ', shuffled);
    var a := SearchTerms(Implode(' ', words));
    var b := SearchTerms(Implode(' ', shuffled));
    assert forall t :: t in a <==> t in b;
    assert a == [] <==> b == [] by {
      if a != [] {
        assert a[0] in a;
      }
      if b != [] {
        assert b[0] in b;
      }
    }
  }

  /** Words already in trimmed form are kept as they are. */
  lemma {:induction false} KeptTermsOfTrimmed(words: seq<string>)
    requires forall w :: w in words ==> TrimmedForm(w) && !PhpEmpty(w)
    ensures KeptTerms(words) == words
  {
    if words != [] {
      TrimOfTrimmedForm(words[0]);
      KeptTermsOfTrimmed(words[1..]);
    }
  }

  /** Space-separated words, each non-empty and in trimmed form, are the
      terms of the search, in order. */
  lemma SearchTermsOfWords(words: seq<string>)
    requires |words| >= 1
    requires forall w :: w in words ==> PlainWord(w)
    ensures SearchTerms(Implode(' ', words)) == words
  {
    ExplodeImplode(' ', words);
    KeptTermsOfTrimmed(words);
  }

  /** A word fit to be a search term: no space, no trim character at
      either end, not empty and not "0". */
  predicate PlainWord(w: string) {
    ' ' !in w && TrimmedForm(w) && !PhpEmpty(w)
  }

  /** A single plain word is the one term of its search. */
  lemma SearchTermsOfWord(w: string)
    requires PlainWord(w)
    ensures SearchTerms(w) == [w]
  {
    assert Implode(' ', [w]) == w;
    SearchTermsOfWords([w]);
  }

  /** Two plain words joined by a space are the two terms of their search. */
  lemma SearchTermsOfTwoWords(a: string, b: string)
    requires PlainWord(a) && PlainWord(b)
    ensures SearchTerms(a + " " + b) == [a, b]
  {
    assert Implode(' ', [a, b]) == a + " " + b;
    SearchTermsOfWords([a, b]);
  }

  /** A name search for a longer word narrows: every name a word matches is
      also matched by any prefix of that word (searching "Ste" finds all that
      "Stephen" finds, and perhaps more). */
  lemma PrefixTermWidens(name: string, w: string, p: string)
    requires PlainWord(w) && PlainWord(p) && Literal(w) && Literal(p)
    requires p <= w
    ensures MatchesAll(name, SearchTerms(w)) ==> MatchesAll(name, SearchTerms(p))
  {
    SearchTermsOfWord(w);
    SearchTermsOfWord(p);
    LikeIsContains(name, w);
    LikeIsContains(name, p);
    if Contains(name, w) {
      var k :| 0 <= k <= |name| && w <= name[k..];
      ContainedAt(name, p, k);
    }
  }

  /** A name search for two words finds exactly the names holding both, in
      any place and either order ("J. Akins" finds "Stephen J. Akins"). */
  lemma BothTermsMustOccur(name: string, a: string, b: string)
    requires PlainWord(a) && PlainWord(b) && Literal(a) && Literal(b)
    ensures MatchesAll(name, SearchTerms(a + " " + b)) <==> Contains(name, a) && Contains(name, b)
  {
    SearchTermsOfTwoWords(a, b);
    MatchesAllOfTwo(name, a, b);
    LikeIsContains(name, a);
    LikeIsContains(name, b);
  }

  /** Matching two terms is matching each. */
  lemma MatchesAllOfTwo(name: string, a: string, b: string)
    ensures MatchesAll(name, [a, b]) <==> Like(name, Pattern(a)) && Like(name, Pattern(b))
  {
    assert forall t :: t in [a, b] <==> t == a || t == b;
  }

  /** A search word holding a character the name lacks does not find it
      ("Stephen" does not find "Steven Smith", which has no 'p'). */
  lemma MissingLetterExcludes(name: string, w: string, i: int)
    requires PlainWord(w) && Literal(w)
    requires 0 <= i < |w| && w[i] !in name
    ensures !MatchesAll(name, SearchTerms(w))
  {
    SearchTermsOfWord(w);
    LikeIsContains(name, w);
    AbsentCharNotContained(name, w, i);
  }
}
