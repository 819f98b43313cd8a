# ts_calendar in Dafny

ts_calendar serves a personal iCalendar feed for a TeamSnap team. It holds only
the events the signed-in member has answered "Yes" (status 1) or "Maybe"
(status 2). This project models the logic between the TeamSnap API and the
calendar library, and proves properties of that logic:

- **Collection+JSON flattening** (`CollectionJson`, collection_json.dfy). Each item of a
  TeamSnap response becomes a flat record. The member search picks its first
  result, or fails when the search found nobody.
- **Feed assembly** (`CalendarFeed`, calendar_feed.dfy):
  - the lookup maps built from availabilities and locations;
  - the RSVP filter;
  - the hand-off to the generator;
  - the in-memory result cache. Entries stay fresh for 300 seconds and are expired lazily.
- **Event → VEVENT mapping** (`IcalGenerator`, ical_generator.dfy). It covers:
  - the calendar header;
  - date normalisation (`Z` becomes `+00:00`);
  - UID, SUMMARY, DTSTART, DTEND, LOCATION, DESCRIPTION, STATUS and DTSTAMP
    of each VEVENT (section 3.6.1 of RFC 5545);
  - skipping events without a start.
- **Member listing** (`Members`, members.dfy). Each member is projected to its id and display
  name, and the rows are sorted by name in place.
- **`.env` loading** of the local server (`DotEnv`, dot_env.dfy). It parses lines and applies
  `os.environ.setdefault`.

Python's loosely typed values are modelled in `PyValues` (py_values.dfy):

- `Value` holds the JSON scalars a record field can carry.
- `Truthy` is Python truthiness.
- `Key` gives a value's identity as a dict key, where `True` is `1`.
- `Str` is `str()` of a scalar.
- `Strip` is `str.strip()` over Unicode whitespace.

The exceptions the code raises on malformed data (KeyError, AttributeError,
TypeError, ValueError, and the OSError of `setenv`) are modelled as `Err` results. They are never excluded
by preconditions.

The source is imperative in places, and those places stay imperative here:

- `generate_ical`, the filter loop of `_build_feed` and `_parse_collection_items`
  are methods with loops.
- The cache is a class whose map field `_set_cached` replaces.
- The member sort is an insertion sort on an array.
- `os.environ` is a class updated by a loop over the lines.

Each such method is proved equal to a specification function. The properties
are proved as lemmas about those functions.

Behaviour of the feed that the model makes explicit:

- The feed does not convert time zones, put the team name in titles, add
  venue arrival-time lines or key its cache by member.
- An event whose `start_date` is set but does not parse is not skipped:
  `datetime.fromisoformat` raises ValueError, and the whole feed fails.
- `_build_feed` passes no opponent map, so nameless games in the served feed
  are always "Game Day".

## Model

| member | source | states |
|---|---|---|
| PyValues.Truthy | api/_ical_generator.py:8 | Python truthiness of a scalar: None, False, 0 and "" are false; used by every `if x` and `x or y` of the model |
| PyValues.Str | api/_ical_generator.py:41 | `str()` / f-string text of a scalar; its integer case is characterised by DecimalRoundTrip, IntToStringDigits and IntToStringInjective |
| PyValues.Key | api/calendar.py:36-37 | a dict key's identity is never a bool (`True` is found as `1`, `False` as `0`) and keeps the value's truthiness |
| PyValues.DecimalRoundTrip | api/_ical_generator.py:41 | the decimal text an f-string gives a non-negative integer reads back as that integer |
| PyValues.IntToStringInjective | api/_ical_generator.py:41 | two integers with the same printed text are equal |
| PyValues.IntToStringDigits | api/_ical_generator.py:78 | an integer prints as a sign and digits only, so never with a line break |
| PyValues.Strip | api/members.py:30 | `str.strip()` over Unicode whitespace; its meaning is stated by StripSplits, StripRemovesSpace, StripEnds and StripIdempotent |
| PyValues.StripLeftFacts | api/members.py:30 | the left-stripped string is a suffix of the string, what precedes it is whitespace, and it does not start with whitespace |
| PyValues.StripRightFacts | api/members.py:30 | the right-stripped string is a prefix of the string, what follows it is whitespace, and it does not end with whitespace |
| PyValues.StripSplits | api/members.py:30 | `s.strip()` is `s` with a prefix and a suffix cut off |
| PyValues.StripRemovesSpace | api/members.py:30 | what `strip()` cuts off is whitespace only |
| PyValues.StripEnds | serve_local.py:13 | neither end of a stripped string is whitespace |
| PyValues.StripIdempotent | serve_local.py:13 | stripping twice gives what stripping once gives |
| CollectionJson.ResponseItems | api/_teamsnap_client.py:12 | a response without "collection", or whose collection has no "items", has no items; otherwise the items are the collection's |
| CollectionJson.ItemWithoutData | api/_teamsnap_client.py:15 | an item without "data" flattens to the empty record |
| CollectionJson.EntriesRecord | api/_teamsnap_client.py:15 | the dict comprehension over an item's `data`; stated by EntriesRecordOk, EntriesRecordKeys, EntriesRecordLastWins and EntriesRecordFirstError |
| CollectionJson.EntriesRecordOk | api/_teamsnap_client.py:15 | flattening an item succeeds exactly when every entry has both "name" and "value" |
| CollectionJson.EntriesRecordKeys | api/_teamsnap_client.py:15 | the flattened record's keys are exactly the entry names |
| CollectionJson.EntriesRecordLastWins | api/_teamsnap_client.py:15 | for a repeated name the value of the last entry with that name wins |
| CollectionJson.EntriesRecordFirstError | api/_teamsnap_client.py:15 | a failed flattening reports the KeyError of the first entry missing "name" (or else "value") |
| CollectionJson.ParseCollectionItems | api/_teamsnap_client.py:10-17 | one flat record per item, in item order; on failure, the error of the first item that cannot be flattened |
| CollectionJson.ParseEmptyResponses | api/_teamsnap_client.py:12-17 | a response missing "collection", or a collection missing "items", flattens to the empty list |
| CollectionJson.SelectMember | api/_teamsnap_client.py:67-70 | an empty search raises ValueError; otherwise the first item's "id" is returned (KeyError when it has none) |
| IcalGenerator.ReplaceZ | api/_ical_generator.py:12 | `value.replace("Z", "+00:00")`: the result holds no "Z"; ReplaceZKeepsZFree and ReplaceZZulu state what it keeps and what it rewrites |
| IcalGenerator.ReplaceZKeepsZFree | api/_ical_generator.py:12 | text without "Z" is left unchanged by the replacement |
| IcalGenerator.ReplaceZIdempotent | api/_ical_generator.py:12 | replacing "Z" twice gives what replacing once gives |
| IcalGenerator.ReplaceZZulu | api/_ical_generator.py:10-12 | a trailing UTC designator "Z" becomes the explicit offset "+00:00" |
| IcalGenerator.ParseDt | api/_ical_generator.py:6-13 | None exactly for a missing or falsy value; otherwise the instant of the text with every "Z" replaced by "+00:00", AttributeError for a non-string and ValueError when the parser rejects the text |
| IcalGenerator.Uid | api/_ical_generator.py:41 | the UID text `teamsnap-event-{id}@ts-subscribe`; UidInjective states it tells events apart |
| IcalGenerator.UidInjective | api/_ical_generator.py:41 | the UID depends on the event id alone, and two integer (or two string) ids give the same UID only when they are equal |
| IcalGenerator.EventTitle | api/_ical_generator.py:43-52 | the name part of SUMMARY; its four cases and the "TBD" default are stated by SummaryCases |
| IcalGenerator.Summary | api/_ical_generator.py:53-54 | SUMMARY as prefix, space and name part; stated by SummaryCases |
| IcalGenerator.SummaryCases | api/_ical_generator.py:43-54 | SUMMARY is "[Game] " or "[Event] " by `is_game`, then the own non-empty name, "vs " + opponent name (default "TBD") for a nameless game whose opponent resolves, "Game Day" for other nameless games, "Untitled" for nameless non-games; the name part is never empty |
| IcalGenerator.LocationText | api/_ical_generator.py:61-70 | the LOCATION text, if any; stated by LocationCases |
| IcalGenerator.LocationCases | api/_ical_generator.py:61-70 | LOCATION exists exactly when the location resolves and has a non-empty name; it is "name, address" with a non-empty address and the name alone otherwise |
| IcalGenerator.SplitJoin | api/_ical_generator.py:82 | splitting a "\n"-join of parts without line breaks gives the parts back |
| IcalGenerator.TextParts | api/_ical_generator.py:82 | `str.join` succeeds exactly when every part is a string, giving those strings in order |
| IcalGenerator.DescriptionParts | api/_ical_generator.py:72-80 | `desc_parts`: notes, arrival line and marker, each when truthy, in that order; stated by DescriptionJoins and DescriptionLinesOneLine |
| IcalGenerator.Description | api/_ical_generator.py:81-82 | DESCRIPTION as the "\n"-join of the parts, or none; stated by DescriptionOmitted, DescriptionFails, DescriptionJoins and DescriptionSplit |
| IcalGenerator.DescriptionOmitted | api/_ical_generator.py:72-82 | DESCRIPTION is omitted exactly when no description line applies |
| IcalGenerator.DescriptionFails | api/_ical_generator.py:74-82 | building DESCRIPTION raises exactly when the notes are set but are not text |
| IcalGenerator.DescriptionJoins | api/_ical_generator.py:72-82 | DESCRIPTION is the notes, "Arrive N minutes early" and "** CANCELED **", each when it applies, joined by "\n" in that order |
| IcalGenerator.DescriptionLinesOneLine | api/_ical_generator.py:73-80 | no description line holds a line break when the notes and the arrival value hold none |
| IcalGenerator.DescriptionSplit | api/_ical_generator.py:72-82 | reading DESCRIPTION back line by line gives exactly the applicable lines in order |
| IcalGenerator.CanceledDescriptionEnds | api/_ical_generator.py:79-82 | a canceled event's description ends with "** CANCELED **" |
| IcalGenerator.Kept | api/_ical_generator.py:34-38 | the events with a start are no more than the events given |
| IcalGenerator.VEventOf | api/_ical_generator.py:35-87 | one pass of the generator loop: no VEVENT, a VEVENT, or the error raised; stated by EventSkipped, EventFails and VEventFields |
| IcalGenerator.EventSkipped | api/_ical_generator.py:36-38 | an event yields no VEVENT exactly when its `start_date` is missing or falsy |
| IcalGenerator.EventFails | api/_ical_generator.py:34-87 | an event makes the generator raise exactly when its start, or (given a start) its end, is set but unparseable, or its notes are set but not text; unresolved foreign keys never raise |
| IcalGenerator.VEventFields | api/_ical_generator.py:40-87 | every VEVENT has the UID, SUMMARY, DTSTART and DTSTAMP its rules give; DTEND exactly when `end_date` is set, with no duration made up; LOCATION and DESCRIPTION as their rules say; STATUS "CANCELLED" exactly when canceled |
| IcalGenerator.Components | api/_ical_generator.py:34-89 | the VEVENTs of the events in order, or the first error; stated by ComponentsAligned, ComponentsFail, ComponentsFirstError and RegenerateSameEvents |
| IcalGenerator.ComponentsAligned | api/_ical_generator.py:34-89 | each event with a start yields exactly one VEVENT and every other event none: the i-th VEVENT is that of the i-th event with a start |
| IcalGenerator.ComponentsFail | api/_ical_generator.py:34-89 | generation fails exactly when some event makes it raise |
| IcalGenerator.ComponentsFirstError | api/_ical_generator.py:34-89 | once a prefix of the events fails, the whole list fails with the same error |
| IcalGenerator.RegenerateSameEvents | api/_ical_generator.py:41-87 | regenerating at another clock reading gives the same VEVENTs, UIDs included, in the same order, differing only in DTSTAMP |
| IcalGenerator.GenerateIcal | api/_ical_generator.py:16-91 | the calendar is the header (PRODID "-//ts-subscribe//TeamSnap Filtered Feed//EN", VERSION "2.0", X-WR-CALNAME "TeamSnap (Attending)") followed by the VEVENTs of the events in order, or the error of the first event that raises |
| CalendarFeed.Index | api/calendar.py:36-37 | `{r[key]: r for r in records}`; stated by IndexOk, IndexKeys and IndexLastWins |
| CalendarFeed.IndexOk | api/calendar.py:36-37 | building a lookup map succeeds exactly when every record has the key, and raises KeyError otherwise |
| CalendarFeed.IndexKeys | api/calendar.py:36-37 | the lookup map's keys are exactly the identifiers the records carry |
| CalendarFeed.IndexLastWins | api/calendar.py:36-37 | each identifier maps to the last record in list order that carries it |
| CalendarFeed.Accepted | api/calendar.py:43 | `status_code in (1, 2)` with Python `==`, so `True` counts as 1 |
| CalendarFeed.Attending | api/calendar.py:42-43 | an availability is found under the event's id, is non-empty, and has an accepted status; FilterLaw states the filter keeps exactly these |
| CalendarFeed.AttendingEvents | api/calendar.py:40-44 | the attending events in input order; stated by AttendingSubsequence and FilterLaw, and computed by FilterAttending |
| CalendarFeed.AttendingSubsequence | api/calendar.py:40-44 | the filtered list is the events at the attending positions, in increasing position order, and a position is taken exactly when its event's availability has status 1 or 2 |
| CalendarFeed.FilterLaw | api/calendar.py:40-44 | an event is kept exactly when it is one of the events and an availability with status 1 or 2 exists for its id |
| CalendarFeed.FilterAttending | api/calendar.py:40-44 | the filter loop yields the attending events in order, and raises KeyError exactly when some event has no id |
| CalendarFeed.FilteredOf | api/calendar.py:36-44 | the list handed to the generator, or the KeyError raised while indexing or filtering; computed by FilterAttending |
| CalendarFeed.FeedOf | api/calendar.py:36-47 | the calendar `_build_feed` returns; computed by BuildFeed, and ServedEventsAreAttended and AttendedEventsAreServed state which events it serves |
| CalendarFeed.BuildFeed | api/calendar.py:36-47 | the feed indexes availabilities by event id and locations by id, filters, and generates without an opponent map, in that order |
| CalendarFeed.KeptFromList | api/_ical_generator.py:34-38 | every event the generator keeps is one of its input events and has a start |
| CalendarFeed.KeptComplete | api/_ical_generator.py:34-38 | every event with a start is kept by the generator |
| CalendarFeed.ServedEventsAreAttended | api/calendar.py:36-47 | every VEVENT served comes from an event the member answered 1 or 2 that has a start, and carries that event's UID |
| CalendarFeed.AttendedEventsAreServed | api/calendar.py:36-47 | every event the member answered 1 or 2 that has a start is served: some VEVENT of the feed carries its UID |
| CalendarFeed.NoOpponentsGameDay | api/_ical_generator.py:43-54 | with an empty opponent map a nameless game is titled "[Game] Game Day" |
| CalendarFeed.ServedNamelessGamesAreGameDay | api/calendar.py:47 | since no opponent map is passed, every nameless game in the served feed is "[Game] Game Day" |
| CalendarFeed.Cached | api/calendar.py:13-17 | a lookup gives the stored data exactly when an entry exists and is less than 300 s old |
| CalendarFeed.FreshAfterSet | api/calendar.py:13-21 | a get less than 300 s after a set for the same key returns exactly the bytes stored |
| CalendarFeed.ExpiredAfterTtl | api/calendar.py:10-17 | an entry 300 s old or older reads as absent (the window is strict) |
| CalendarFeed.SetKeepsOtherKeys | api/calendar.py:20-21 | a set for one key changes no other key's lookup |
| CalendarFeed.FeedCache.constructor | api/calendar.py:9 | the cache starts empty |
| CalendarFeed.FeedCache.Get | api/calendar.py:13-17 | `_get_cached` returns the lookup for the key at `now`, and changes nothing (expired entries stay) |
| CalendarFeed.FeedCache.Set | api/calendar.py:20-21 | `_set_cached` replaces only that key's entry with (data, now); every other entry is unchanged |
| CalendarFeed.SetThenGet | api/calendar.py:13-21 | a set then a get less than 300 s later returns the bytes stored, and another key's get is as before |
| Members.Projected | api/members.py:27-33 | one row per member, in fetched order, each the member's projection |
| Members.DisplayName | api/members.py:30 | the stripped f-string of first and last name; stated by ProjectFields, NamelessMember and NullFirstName |
| Members.Project | api/members.py:29-30 | one member's row: `m.get("id")` and the display name; stated by ProjectFields |
| Members.ProjectFields | api/members.py:29-30 | `member_id` is the member's id (None when missing); the name is first name, a space, last name with outer whitespace removed, missing parts defaulting to "" |
| Members.NamelessMember | api/members.py:30 | a member with neither name gets the empty name |
| Members.NullFirstName | api/members.py:30 | a name present but null prints as "None" inside the display name |
| Members.LessEqReflexive | api/members.py:34 | Python's string order is reflexive |
| Members.LessEqTotal | api/members.py:34 | any two names are comparable |
| Members.LessEqTransitive | api/members.py:34 | the string order is transitive |
| Members.LessEqAntisymmetric | api/members.py:34 | names ordered both ways are equal |
| Members.NamedConcat | api/members.py:34 | the rows with a given name in a concatenation are those of each part, in order |
| Members.InsertPermutes | api/members.py:34 | inserting a row adds exactly that row |
| Members.InsertKeepsSorted | api/members.py:34 | inserting into rows sorted by name keeps them sorted |
| Members.InsertKeepsOrderOfEquals | api/members.py:34 | an inserted row comes after every row with the same name |
| Members.SortByName | api/members.py:34 | `result.sort(key=name)` as a stable insertion sort; stated by SortSorts, SortPermutes and SortIsStable, and computed in place by SortRows |
| Members.SortSorts | api/members.py:34 | the sorted rows are in nondecreasing name order |
| Members.SortPermutes | api/members.py:34 | the sorted rows are a permutation of the rows |
| Members.SortIsStable | api/members.py:34 | rows with equal names keep their fetched order |
| Members.InsertAt | api/members.py:34 | one insertion pass moves the next row into place in the sorted prefix and leaves the rest alone |
| Members.SortRows | api/members.py:34 | the in-place sort leaves the array holding the stable sort of its old contents |
| Members.ListMembers | api/members.py:26-34 | the listing has one row per fetched member, is a permutation of the projected rows, is sorted by name and equals their stable sort |
| DotEnv.FirstIndex | serve_local.py:15 | the position of the first "=" holds "=" and no earlier position does |
| DotEnv.StripSubset | serve_local.py:15 | a stripped string's characters are characters of the original |
| DotEnv.ParseLine | serve_local.py:13-15 | what one line asks for: nothing, or a stripped (key, value) split at the first "="; stated by ParseLineMeaning |
| DotEnv.ParseLineMeaning | serve_local.py:13-15 | a line is skipped exactly when, stripped, it is blank, starts with "#" or has no "="; otherwise it is `a = b` with no "=" in `a`, the key is `a` stripped and the value `b` stripped, so the value may hold "=" |
| DotEnv.PutenvError | serve_local.py:16 | the exception `putenv` raises on a POSIX system: ValueError for a NUL or an "=" in the name, OSError for an empty name, none otherwise |
| DotEnv.SetDefault | serve_local.py:16 | `setdefault` leaves a set variable alone, sets an unset one, and raises what `putenv` raises for a name or value the environment refuses |
| DotEnv.Parsed | serve_local.py:12-15 | one parse per line, in file order |
| DotEnv.Assign | serve_local.py:12-16 | `setdefault` for each assignment in turn, or the first error; stated by AssignKeepsExisting, AssignKeys, AssignFirstWins, AssignFails and AssignStops |
| DotEnv.Loaded | serve_local.py:12-16 | the environment after the loop over the lines, or the error that stopped it; computed by Environment.LoadDotEnv |
| DotEnv.AssignKeepsExisting | serve_local.py:16 | a variable already in the environment keeps its value and no variable is removed |
| DotEnv.AssignKeys | serve_local.py:12-16 | after loading, the variables are those set before plus those the file assigns |
| DotEnv.AssignFirstWins | serve_local.py:12-16 | a variable not yet set takes the value of its first assignment in the file |
| DotEnv.AssignFails | serve_local.py:16 | loading stops only with a ValueError or an OSError, an OSError only when some line assigns an empty name, and never when every assignment is to a legal name with a legal value |
| DotEnv.AssignStops | serve_local.py:12-16 | once a prefix of the file fails to load, the whole file fails with the same error |
| DotEnv.Environment.SetDefaultVar | serve_local.py:16 | the environment becomes what `setdefault` gives, and is unchanged when it raises |
| DotEnv.Environment.LoadDotEnv | serve_local.py:12-16 | the environment becomes the loaded environment; on an error it is the environment loaded from the lines before some line k, and loading through line k fails with that error |

## Left out

- HTTP: the TeamSnap API calls, authentication and token refresh, and the request handlers are not modelled. Those handlers answer 400 when `team_id` is missing. The fetched records are parameters of `BuildFeed` and `ListMembers`.
- setup_auth.py (interactive OAuth) is not part of this model.
- The `icalendar` library is not modelled: its `Calendar`/`Event` objects, TEXT escaping and line folding. A VEVENT is a record of its properties, so the order in which the generator adds properties is not represented.
- `datetime.fromisoformat` is the abstract predicate `isIso`, and an instant is identified with the normalised text handed to it. Which strings parse, and the datetime values themselves, are not modelled.
- IcalGenerator.GenerateIcal: takes one DTSTAMP value for all VEVENTs, while the source reads the clock once per event. The clock is a parameter, as is `time.time()` for the cache.
- The `started_after` window of `get_events` depends on the clock and the network, so it is not modelled.
- Sharing `_cache` between concurrent requests and serverless instances is not modelled.
- Record values are JSON scalars (None, bool, integer, string). Floats, lists and objects as field values, and `str()` of them, are not modelled.
- A "collection" that is present but null (so `.get("items", [])` raises AttributeError) and an "items" that is present but null (so the `for` loop raises TypeError) are not modelled. A missing key is modelled.
- An item whose "data" is present but null, which makes the comprehension raise TypeError, is not modelled: `Item.data` is either missing or a list.
- An entry "name" that is null or a number, which becomes a non-string key of the flat record, is not modelled: entry names are strings.
- Names and values containing a surrogate character, and `os.environ`'s encoding, are not modelled. The exceptions `putenv` raises on a POSIX system are modelled: ValueError for an embedded NUL or an "=" in the name, OSError for an empty name. The Windows build, which raises ValueError for an empty name, is not modelled.
- Reading the `.env` file is I/O. The loader takes the file's lines.
- Members.SortRows: an insertion sort stands in for `list.sort`. Any stable sort by the same key gives the same order, and the lemmas state sortedness, permutation and stability.
