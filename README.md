# Contacts-and-calendar store

A model of the data-access core of a small contacts-and-calendar store. Two
service classes work over one relational connection:

- `Events` keeps calendar events and the `event_contacts` table, which links
  events to the contacts who attend them. It offers these operations:
  - `create` checks its input, then inserts the event and one link per contact
    id as one all-or-nothing unit;
  - `list` returns every event by start time;
  - `find` returns the events overlapping a time window;
  - `update` is a partial update;
  - `delete` removes the event and its links in one transaction.
- `Contacts` keeps the address book. It offers these operations:
  - `create` stores the trimmed name;
  - `list` sorts by an allow-listed column and direction;
  - `find` searches one allow-listed field. A name search needs every
    space-separated term to occur in the name; the other fields compare
    exactly;
  - `update` is a partial update;
  - `delete` removes one row.

The connection is the class `Db.Database`. It holds these fields:

- the `contacts` and `events` tables, as maps from id to row;
- the link table, as a sequence of pairs;
- two auto-increment counters, which stand for `lastInsertId()`;
- the one transaction that can be open, as a savepoint.

Each SQL statement the services run is a method of `Database` that updates
these fields. A `SELECT` is `Db.Scan`, a loop over the table that keeps the
rows meeting the WHERE condition. `ORDER BY` is `Ordering.SortBy`, a sort
proved to return a sorted permutation.

Each reply is a datatype, and `Message` maps it to the exact text the
service returns. The PHP string functions the services rely on are modelled
in `PhpText`:

- `trim`;
- `empty` on a string, where `"0"` counts as empty;
- `strtolower` and `strtoupper`;
- `explode` and `implode`;
- integer interpolation into strings.

`SqlLike` models SQL `LIKE` with its `%` and `_` wildcards.

The clock is the parameter `now`. A driver failure inside the two
transactional units of `Events` is the parameter `failAt`. It gives the
index of the statement in the unit that throws; `None` means no statement
throws.

## Model

| member | source | states |
|---|---|---|
| PhpText.TrimStart | src/Contacts.php:35 | `ltrim` drops exactly the longest prefix of trim characters: the result is a suffix, everything dropped is a trim character, and the result does not start with one |
| PhpText.TrimEnd | src/Contacts.php:35 | `rtrim` drops exactly the longest suffix of trim characters |
| PhpText.TrimIsMaximalSlice | src/Contacts.php:35 | `trim(s)` is a slice `s[i..j]` with only trim characters cut off on both sides, and it has no trim character at either end |
| PhpText.TrimEmptyIffBlank | src/Events.php:24 | the trim is empty exactly when every character is a trim character |
| PhpText.TrimOfTrimmedForm | src/Contacts.php:104 | a string with no trim character at either end is its own trim |
| PhpText.TrimIdempotent | src/Contacts.php:104 | trimming twice is trimming once |
| PhpText.TrimKeepsAbsent | src/Contacts.php:104 | trimming never introduces a character, so a term cut from a space-free piece stays space-free |
| PhpText.ToLowerIdempotent | src/Contacts.php:60 | lower-casing twice is lower-casing once |
| PhpText.ToUpperOfLower | src/Contacts.php:65 | upper-casing ignores an earlier lower-casing |
| PhpText.ToLowerOfUpper | src/Contacts.php:92 | lower-casing ignores an earlier upper-casing |
| PhpText.Explode | src/Contacts.php:100 | `explode(' ', v)` gives at least one piece, no piece holds the delimiter, and gluing the pieces back with the delimiter gives the value |
| PhpText.ExplodeLiteral | src/Contacts.php:100 | a value without the delimiter explodes to itself |
| PhpText.ExplodeAtFirstDelimiter | src/Contacts.php:100 | a value with the delimiter explodes to the piece before its first occurrence, then the explosion of the rest |
| PhpText.ExplodeImplode | src/Contacts.php:100 | exploding the implode of delimiter-free pieces returns the pieces |
| PhpText.DigitChar | src/Events.php:55 | a digit value renders as a decimal digit character |
| PhpText.DigitValue | src/Events.php:55 | a decimal character's value lies in 0..9 and renders back as that character |
| PhpText.NatToString | src/Events.php:55 | the decimal rendering of an id is a non-empty run of digits |
| PhpText.ParseNatToString | src/Events.php:55 | reading the decimal rendering of a natural number gives the number back |
| PhpText.ParseIntToString | src/Events.php:55 | reading the rendering of any integer, sign included, gives it back |
| SqlLike.LikePercentMatchesAll | src/Contacts.php:107 | the pattern `%` matches every string |
| SqlLike.LikeLiteralPrefix | src/Contacts.php:107 | a wildcard-free pattern head must match the string's head character by character |
| SqlLike.LikeLeadingPercent | src/Contacts.php:107 | a leading `%` matches exactly when the rest of the pattern matches some suffix |
| SqlLike.LikeIsContains | src/Contacts.php:106-107 | for a wildcard-free term, `LIKE '%term%'` holds exactly when the term is a substring |
| SqlLike.AbsentCharNotContained | src/Contacts.php:106-107 | a term with a character the name lacks is not contained in it |
| Ordering.LexLeTotal | src/Contacts.php:67 | binary text order is total |
| Ordering.LexLeTransitive | src/Contacts.php:67 | binary text order is transitive |
| Ordering.BeforeTotal | src/Contacts.php:67 | sort-key order is total in both directions, with NULL first under ASC |
| Ordering.BeforeTransitive | src/Contacts.php:67 | sort-key order is transitive in both directions |
| Ordering.PrependSorted | src/Contacts.php:67 | a row that may precede every row of a sorted listing can be put in front |
| Ordering.BeforeHeadBeforeAll | src/Contacts.php:67 | whatever may precede the head of a sorted listing may precede all of it |
| Ordering.Insert | src/Contacts.php:67 | inserting into a sorted listing keeps it sorted and adds exactly that row |
| Ordering.SortBy | src/Contacts.php:67 | `ORDER BY col ASC/DESC` returns a permutation of its input that is sorted by the key in that direction |
| Db.AssignEventAll | src/Events.php:153 | an event SET list never changes the id or the creation time |
| Db.AssignEventAllAppend | src/Events.php:150-153 | running a SET list extended at the end is running the extension after the list |
| Db.AssignContactAll | src/Contacts.php:172 | a contact SET list never changes the id or the creation time |
| Db.AssignContactAllAppend | src/Contacts.php:169-172 | running a SET list extended at the end is running the extension after the list |
| Db.RemoveLinksOfMembers | src/Events.php:181-182 | after `DELETE FROM event_contacts WHERE event_id = ?` a link remains exactly when it was there and names another event |
| Db.RemoveLinksOfKeepsCount | src/Events.php:181-182 | every link of another event keeps its number of copies |
| Db.RemoveLinksOfAppend | src/Events.php:181-182 | removal from two joined link lists is the removal from each, joined |
| Db.RemoveLinksOfNone | src/Events.php:181-182 | removing an event's links where there are none changes nothing |
| Db.RemoveLinksOfOnly | src/Events.php:181-182 | removing an event's links from a list of only its links leaves nothing |
| Db.Database.constructor | src/Events.php:32 | a fresh store is empty, with both counters at 1 and no transaction open |
| Db.Database.BeginTransaction | src/Events.php:35 | opens a transaction, saving the whole store content; nothing else changes |
| Db.Database.Commit | src/Events.php:53 | closes the transaction and keeps every change |
| Db.Database.RollBack | src/Events.php:58 | closes the transaction and puts back every table and counter as saved |
| Db.Database.InsertEvent | src/Events.php:38-42 | adds one event row under a fresh id, which `lastInsertId` returns, and advances the counter; nothing else changes |
| Db.Database.InsertLink | src/Events.php:46-49 | appends exactly one link row; nothing else changes |
| Db.Database.DeleteLinksOf | src/Events.php:181-182 | the links become `RemoveLinksOf` of the old links; nothing else changes |
| Db.Database.DeleteEvent | src/Events.php:185-189 | removes the row with that id and reports 1 exactly when it existed; nothing else changes |
| Db.Database.UpdateEvent | src/Events.php:153-160 | applies the SET list to the row with that id, if there is one, and reports whether it matched |
| Db.Database.InsertContact | src/Contacts.php:27-43 | adds one contact row under a fresh id, which `lastInsertId` returns, and advances the counter |
| Db.Database.UpdateContact | src/Contacts.php:172-179 | applies the SET list to the row with that id, if there is one, and reports whether it matched |
| Db.Database.DeleteContact | src/Contacts.php:195-201 | removes the row with that id and reports 1 exactly when it existed; links stay |
| Db.ListsExactlyPermuted | src/Events.php:72 | reordering a listing of a row set still lists exactly that set |
| Db.ListsExactlyMembers | src/Events.php:98-104 | a listing holds a row exactly when some selected key holds it |
| Db.ListsExactlyAdd | src/Events.php:98-104 | selecting one more key adds its row to the listing once |
| Db.Scan | src/Events.php:98-104 | a `SELECT ... WHERE cond` lists the rows meeting the condition and no other: each row value occurs as often as there are matching keys holding it |
| Events.LinksFor | src/Events.php:46-50 | a link is among those inserted for the new event exactly when it names that event and one of the given contact ids |
| Db.WhereEveryRow | src/Events.php:72 | the WHERE-less listing selects every key |
| Events.AssignmentsEmpty | src/Events.php:126-148 | the SET list is empty exactly when all four optional fields are null |
| Events.AssignmentsPatch | src/Events.php:126-153 | the SET list plus `updated_at = now` turns a row into the partial update: supplied fields replaced, the others kept |
| Events.Events.constructor | src/Events.php:9 | the service works on the given connection |
| Events.Events.Create | src/Events.php:22-62 | an empty trimmed heading (`"0"` included) or an end before the start returns the error and changes nothing. A throwing statement rolls back, changing nothing. Otherwise one event row with a fresh id, the untrimmed heading and `now` as both timestamps is added, plus one link `(id, c)` per contact id, in the order given, and none for a null or empty list |
| Events.Events.InsertWithLinks | src/Events.php:37-51 | the insert loop completes exactly when no statement of the unit throws, leaving the event row and all of its links |
| Events.Events.List | src/Events.php:70-84 | "No events found." exactly when the table is empty; otherwise every event exactly once, projected to id, heading, description, start and end time, by non-decreasing start time |
| Events.Events.Find | src/Events.php:94-111 | exactly the events with `start < qEnd && end > qStart`, each once, projected to id, heading, description, start and end time, by non-decreasing start time; the empty-range message exactly when none overlaps |
| Events.Events.Update | src/Events.php:124-165 | no supplied field returns the error and writes nothing. Otherwise the row with that id takes the supplied fields and `updated_at = now`, without a start/end check, or the not-found error comes back. Other tables are unchanged |
| Events.Events.Delete | src/Events.php:174-200 | an existing event is removed with all of its links, and nothing else changes. A missing id, or a statement that throws, rolls back so that nothing changes |
| Events.OverlapIsSharedInstant | src/Events.php:96-98 | for non-empty intervals, the overlap test holds exactly when the half-open intervals share an instant |
| Events.TouchingIsNotOverlap | src/Events.php:98 | an event ending where the window starts, or starting where it ends, is not found |
| Events.ErrorRepliesSayError | src/Events.php:25 | a reply's text starts with "Error: " exactly when the reply is an error |
| Events.CreatedMessageCarriesId | src/Events.php:55 | the creation message reads back the new id between its fixed prefix and the final full stop |
| Events.RemoveCreatedLinks | src/Events.php:181-182 | deleting a new event's links removes exactly the links its creation added |
| Events.CreateThenDelete | src/Events.php:22-200 | an accepted create followed by a delete of the new id restores the events, links and contacts |
| Contacts.ColumnName | src/Contacts.php:59 | every sort column's name is on the allow-list |
| Contacts.ColumnNamed | src/Contacts.php:59-62 | a name denotes a column exactly when it is on the allow-list, and that column is named by it |
| Contacts.ResolveOrder | src/Contacts.php:59-65 | sorts by the lower-cased column name if it is allowed, by `name` otherwise; descending exactly when the upper-cased direction is `DESC` |
| Contacts.ResolveOrderIgnoresCase | src/Contacts.php:59-65 | the case of either argument does not change the sort |
| Contacts.FieldName | src/Contacts.php:91 | every search field's name is on the allow-list |
| Contacts.FieldNamed | src/Contacts.php:91-92 | a name denotes a field exactly when it is on the allow-list, and that field is named by it |
| Contacts.KeptTerms | src/Contacts.php:103-109 | every kept term is the trim of some piece and non-empty; every piece with a non-empty trim is kept |
| Contacts.SearchTerms | src/Contacts.php:100-109 | every search term is non-empty (not `"0"`), space-free and already trimmed |
| Contacts.AssignmentsEmpty | src/Contacts.php:145-167 | the SET list is empty exactly when all four optional fields are null |
| Contacts.AssignmentsPatch | src/Contacts.php:145-172 | the SET list plus `updated_at = now` turns a row into the partial update: supplied fields replaced, the others kept |
| Contacts.Contacts.constructor | src/Contacts.php:8 | the service works on the given connection |
| Contacts.Contacts.Create | src/Contacts.php:20-46 | an empty trimmed name (`"0"` included) returns the error and changes nothing. Otherwise one row is added with a fresh id, the trimmed name, the given email, phone and notes, and `now` as both timestamps |
| Contacts.Contacts.List | src/Contacts.php:56-79 | "No contacts found." exactly when the table is empty; otherwise every contact exactly once, projected to id, name, email, phone and notes, sorted by the resolved column and direction |
| Contacts.Contacts.Find | src/Contacts.php:89-130 | the invalid-field error exactly when the lower-cased field is not allowed. Otherwise exactly the rows the field's condition selects, each once, projected to id, name, email, phone and notes, and the no-match message exactly when there are none |
| Contacts.Contacts.Update | src/Contacts.php:143-184 | no supplied field returns the error and writes nothing. Otherwise the row takes the supplied fields and `updated_at = now`, without re-validating the name, or the not-found error comes back |
| Contacts.Contacts.Delete | src/Contacts.php:193-206 | an existing row is removed, and the links and events stay; a missing id returns the error and changes nothing |
| Contacts.ErrorRepliesSayError | src/Contacts.php:24 | a reply's text starts with "Error: " exactly when the reply is an error |
| Contacts.CreatedMessageCarriesId | src/Contacts.php:45 | the creation message ends with " with ID ", the id's digits and a full stop, whatever the name holds |
| Contacts.FieldIgnoresCase | src/Contacts.php:92 | a field name written in capitals selects the same field as its lower-case spelling |
| Contacts.NameSearchIsSubstringSearch | src/Contacts.php:103-115 | with wildcard-free terms, a name matches exactly when every term is a substring of it |
| Contacts.NameSearchOrderIndependent | src/Contacts.php:100-113 | reordering the space-separated words of a name search finds the same rows |
| Contacts.KeptTermsOfTrimmed | src/Contacts.php:103-109 | pieces that are non-empty and already trimmed are all kept, in order |
| Contacts.SearchTermsOfWords | src/Contacts.php:100-109 | plain words joined by single spaces are the search terms, in order |
| Contacts.SearchTermsOfWord | src/Contacts.php:100-109 | a plain word is the single term of its search |
| Contacts.SearchTermsOfTwoWords | src/Contacts.php:100-109 | two plain words joined by a space are the two terms of their search |
| Contacts.PrefixTermWidens | src/Contacts.php:106-107 | a prefix of a search word finds every name the word finds ("Ste" finds all that "Stephen" finds) |
| Contacts.BothTermsMustOccur | src/Contacts.php:106-113 | a two-word search finds exactly the names holding both words ("J. Akins" finds "Stephen J. Akins") |
| Contacts.MissingLetterExcludes | src/Contacts.php:106-107 | a search word with a letter the name lacks does not find it ("Stephen" does not find "Steven Smith") |

## Left out

- JSON encoding of row listings is not modelled. A listing is a sequence of row views, not the text `json_encode` produces.
- Contacts.Matcher: the name search is case-sensitive in the model, which is weaker than both stores the connection supports. SQLite's `LIKE` ignores ASCII case by default, and MySQL's default `utf8mb4` collation ignores case too. So in the program a search for "stephen" finds "Stephen J. Akins", and in the model it does not. The model states plain substring containment only.
- Ordering.SortBy: text is ordered by code point, with NULL first under ascending order. This is SQLite's default binary order. MySQL's default case-insensitive collation orders text differently.
- The backslash escape inside `LIKE` patterns is not modelled. `%` and `_` are the only special characters.
- Contacts.Matcher: an id search reads the value strictly, as an optional minus sign followed by decimal digits. The store's own lenient text-to-number comparison, under which a value like "7abc" finds row 7, is not modelled.
- Contacts.Matcher: email and phone searches compare exactly, as SQLite's `=` does. Under MySQL's default case-insensitive collation, `=` also ignores case.
- Exceptions from the driver are not modelled in the non-transactional methods, where they propagate. Failure is modelled only inside the two transactional units of `Events`, through `failAt`.
- A failing commit is not modelled.
- Db.Database.RollBack: the auto-increment counter is rolled back as SQLite does. A store that keeps the counter advanced after a rollback would hand out different later ids.
- Db.Database.UpdateEvent, Db.Database.UpdateContact: the count is the number of rows the WHERE clause matched, as SQLite reports it. The MySQL driver the connection is configured for reports changed rows instead, since the found-rows option is not set. Under MySQL an update that writes the values a row already holds, within the same second, answers "not found or no changes made"; the model answers that it updated the row.
- Db.Scan: `find` on contacts returns rows in no promised order. Only which rows are listed, each selected row once, is stated.
- Ordering.SortBy: the order among rows with equal sort keys is not promised. Only sortedness and permutation are stated.
- `time()` is not modelled; the caller passes `now`.
- The connection singleton, configuration loading and DSN building in `src/Database.php` are not part of this model.
- The MCP server transport in `mcp-server.php` and the tool attributes are not part of this model.
- Interpolating a column name into the SQL text is not modelled. A mixed-case field or column name, for example `Name`, is resolved through its lower-case form, as the allow-list check does.
