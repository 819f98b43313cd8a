/**
 * Feed assembly: the lookup maps and the RSVP filter of `_build_feed`, the
 * hand-off to the generator, and the in-memory result cache with its
 * 300-second freshness window.
 */
module CalendarFeed {
  import opened PyValues
  import opened IcalGenerator

  // ---------------------------------------------------------------------------
  // Lookup maps
  // ---------------------------------------------------------------------------

  /**
   * `{r[key]: r for r in records}`: later records overwrite earlier ones with
   * the same key, and a record without the key raises KeyError.
   */
  function Index(records: seq<Record>, key: string): Result<Lookup> {
    if records == [] then Ok(map[])
    else
      var last := records[|records| - 1];
      match Index(records[..|records| - 1], key)
      case Err(e) => Err(e)
      case Ok(m) => if key in last then Ok(m[Key(last[key]) := last]) else Err(KeyError(key))
  }

  /** The keys the records carry under `key`. */
  ghost function KeysOf(records: seq<Record>, key: string): set<Value> {
    set i | 0 <= i < |records| && key in records[i] :: Key(records[i][key])
  }

  /** Record `i` is the last one with its key. */
  ghost predicate LastWithKey(records: seq<Record>, key: string, i: int)
    requires 0 <= i < |records| && key in records[i]
  {
    forall j :: i < j < |records| && key in records[j] ==> Key(records[j][key]) != Key(records[i][key])
  }

  /** Building a lookup map succeeds exactly when every record has the key. */
  lemma {:induction false} IndexOk(records: seq<Record>, key: string)
    ensures Index(records, key).Ok? <==> forall i :: 0 <= i < |records| ==> key in records[i]
    ensures Index(records, key).Err? ==> Index(records, key).error == KeyError(key)
  {
    if records != [] {
      var n := |records| - 1;
      IndexOk(records[..n], key);
      assert forall i :: 0 <= i < n ==> records[..n][i] == records[i];
    }
  }

  /** The map's keys are exactly the records' identifiers. */
  lemma {:induction false} IndexKeys(records: seq<Record>, key: string)
    requires Index(records, key).Ok?
    ensures Index(records, key).value.Keys == KeysOf(records, key)
  {
    if records != [] {
      var n := |records| - 1;
      var init := records[..n];
      IndexKeys(init, key);
      assert forall i :: 0 <= i < n ==> init[i] == records[i];
      assert KeysOf(records, key) == KeysOf(init, key) + {Key(records[n][key])};
    }
  }

  /** Each identifier maps to the last record in list order that carries it. */
  lemma {:induction false} IndexLastWins(records: seq<Record>, key: string, i: int)
    requires Index(records, key).Ok?
    requires 0 <= i < |records| && key in records[i] && LastWithKey(records, key, i)
    ensures Key(records[i][key]) in Index(records, key).value
    ensures Index(records, key).value[Key(records[i][key])] == records[i]
  {
    var n := |records| - 1;
    var init := records[..n];
    if i < n {
      assert init[i] == records[i];
      assert LastWithKey(init, key, i) by {
        assert forall j :: i < j < n ==> init[j] == records[j];
      }
      IndexLastWins(init, key, i);
    }
  }

  // ---------------------------------------------------------------------------
  // RSVP filter
  // ---------------------------------------------------------------------------

  /** `status_code in (1, 2)`: Yes or Maybe (Python's `==`, so `True` counts as 1). */
  predicate Accepted(status: Value) {
    PyEq(status, VInt(1)) || PyEq(status, VInt(2))
  }

  /**
   * `avail and avail.get("status_code") in (1, 2)` for the availability found
   * under the event's id.
   */
  predicate Attending(ev: Record, availByEvent: Lookup)
    requires "id" in ev
  {
    && Key(ev["id"]) in availByEvent
    && availByEvent[Key(ev["id"])] != map[]
    && Accepted(Get(availByEvent[Key(ev["id"])], "status_code"))
  }

  predicate AllHaveId(events: seq<Record>) {
    forall i :: 0 <= i < |events| ==> "id" in events[i]
  }

  /** The attending events in their original order. */
  function AttendingEvents(events: seq<Record>, availByEvent: Lookup): seq<Record>
    requires AllHaveId(events)
  {
    if events == [] then []
    else
      var last := events[|events| - 1];
      var init := AttendingEvents(events[..|events| - 1], availByEvent);
      if Attending(last, availByEvent) then init + [last] else init
  }

  /** The positions of the attending events, in increasing order. */
  function AttendingPositions(events: seq<Record>, availByEvent: Lookup): seq<nat>
    requires AllHaveId(events)
  {
    if events == [] then []
    else
      var n := |events| - 1;
      var init := AttendingPositions(events[..n], availByEvent);
      if Attending(events[n], availByEvent) then init + [n] else init
  }

  /**
   * The filtered list is the order-preserving subsequence of the attending
   * events: its k-th element is the event at the k-th attending position, the
   * positions increase, and a position is listed exactly when its event is
   * attending.
   */
  lemma {:induction false} AttendingSubsequence(events: seq<Record>, availByEvent: Lookup)
    requires AllHaveId(events)
    ensures var r := AttendingEvents(events, availByEvent);
            var pos := AttendingPositions(events, availByEvent);
      && |r| == |pos|
      && (forall k :: 0 <= k < |pos| ==> pos[k] < |events| && r[k] == events[pos[k]])
      && (forall k, l :: 0 <= k < l < |pos| ==> pos[k] < pos[l])
      && (forall i :: 0 <= i < |events| ==> (i in pos <==> Attending(events[i], availByEvent)))
  {
    if events != [] {
      var n := |events| - 1;
      var init := events[..n];
      assert AllHaveId(init);
      AttendingSubsequence(init, availByEvent);
      assert forall i :: 0 <= i < n ==> init[i] == events[i];
    }
  }

  /**
   * The filtering law: an event is in the filtered list exactly when it is one
   * of the events and an availability with status 1 or 2 exists for its id.
   */
  lemma {:induction false} FilterLaw(events: seq<Record>, availByEvent: Lookup, ev: Record)
    requires AllHaveId(events)
    ensures ev in AttendingEvents(events, availByEvent) <==>
              ev in events && "id" in ev && Attending(ev, availByEvent)
  {
    AttendingSubsequence(events, availByEvent);
    var r := AttendingEvents(events, availByEvent);
    var pos := AttendingPositions(events, availByEvent);
    if ev in r {
      var k :| 0 <= k < |r| && r[k] == ev;
      assert events[pos[k]] == ev;
    }
    if ev in events && "id" in ev && Attending(ev, availByEvent) {
      var i :| 0 <= i < |events| && events[i] == ev;
      assert i in pos;
      var k :| 0 <= k < |pos| && pos[k] == i;
      assert r[k] == ev;
    }
  }

  /**
   * The filtering loop of `_build_feed`: keeps the attending events in order;
   * `ev["id"]` raises KeyError on the first event without an id.
   */
  method FilterAttending(events: seq<Record>, availByEvent: Lookup) returns (r: Result<seq<Record>>)
    ensures r.Ok? <==> AllHaveId(events)
    ensures r.Ok? ==> r.value == AttendingEvents(events, availByEvent)
    ensures r.Err? ==> r.error == KeyError("id")
  {
    var filtered: seq<Record> := [];
    var k := 0;
    while k < |events|
      invariant 0 <= k <= |events|
      invariant AllHaveId(events[..k])
      invariant filtered == AttendingEvents(events[..k], availByEvent)
    {
      var ev := events[k];
      if "id" !in ev {
        return Err(KeyError("id"));
      }
      assert events[..k + 1][..k] == events[..k];
      if Attending(ev, availByEvent) {
        filtered := filtered + [ev];
      }
      k := k + 1;
    }
    assert events[..k] == events;
    r := Ok(filtered);
  }

  // ---------------------------------------------------------------------------
  // _build_feed
  // ---------------------------------------------------------------------------

  /** The events `_build_feed` hands to the generator, or the KeyError raised on the way. */
  function FilteredOf(events: seq<Record>, availabilities: seq<Record>): Result<seq<Record>> {
    match Index(availabilities, "event_id")
    case Err(e) => Err(e)
    case Ok(availByEvent) =>
      if AllHaveId(events) then Ok(AttendingEvents(events, availByEvent)) else Err(KeyError("id"))
  }

  /** The calendar `_build_feed` returns for the fetched records. */
  function FeedOf(events: seq<Record>, availabilities: seq<Record>, locationList: seq<Record>,
                  isIso: string -> bool, stamp: Instant): Result<Calendar>
  {
    match Index(availabilities, "event_id")
    case Err(e) => Err(e)
    case Ok(_) =>
      match Index(locationList, "id")
      case Err(e) => Err(e)
      case Ok(locations) =>
        match FilteredOf(events, availabilities)
        case Err(e) => Err(e)
        case Ok(filtered) =>
          match Components(filtered, locations, map[], isIso, stamp)
          case Err(e) => Err(e)
          case Ok(cs) => Ok(Calendar(ProdId, "2.0", CalendarName, cs))
  }

  /**
   * `_build_feed` after the fetches: index availabilities by event id and
   * locations by id, keep the attending events, generate without opponents.
   */
  method BuildFeed(events: seq<Record>, availabilities: seq<Record>, locationList: seq<Record>,
                   isIso: string -> bool, stamp: Instant) returns (r: Result<Calendar>)
    ensures r == FeedOf(events, availabilities, locationList, isIso, stamp)
  {
    var availByEvent := Index(availabilities, "event_id");
    if availByEvent.Err? {
      return Err(availByEvent.error);
    }
    var locations := Index(locationList, "id");
    if locations.Err? {
      return Err(locations.error);
    }
    var filtered := FilterAttending(events, availByEvent.value);
    if filtered.Err? {
      return Err(filtered.error);
    }
    r := GenerateIcal(filtered.value, locations.value, None, isIso, stamp);
  }

  /**
   * Every VEVENT of the served feed comes from an event the member accepted
   * or tentatively accepted that has a start, and carries that event's UID.
   */
  lemma ServedEventsAreAttended(events: seq<Record>, availabilities: seq<Record>, locationList: seq<Record>,
                                isIso: string -> bool, stamp: Instant, i: int)
    requires FeedOf(events, availabilities, locationList, isIso, stamp).Ok?
    requires 0 <= i < |FeedOf(events, availabilities, locationList, isIso, stamp).value.events|
    ensures exists ev :: ev in events && "id" in ev
                         && Attending(ev, Index(availabilities, "event_id").value)
                         && HasStart(ev)
                         && FeedOf(events, availabilities, locationList, isIso, stamp).value.events[i].uid
                            == Uid(Get(ev, "id"))
  {
    var availByEvent := Index(availabilities, "event_id").value;
    var locations := Index(locationList, "id").value;
    var filtered := FilteredOf(events, availabilities).value;
    ComponentsAligned(filtered, locations, map[], isIso, stamp);
    var cs := Components(filtered, locations, map[], isIso, stamp).value;
    var ev := Kept(filtered)[i];
    KeptFromList(filtered, i);
    FilterLaw(events, availByEvent, ev);
    VEventFields(ev, locations, map[], isIso, stamp, cs[i]);
  }

  /** Every kept event is one of the events and has a start. */
  lemma {:induction false} KeptFromList(events: seq<Record>, i: int)
    requires 0 <= i < |Kept(events)|
    ensures Kept(events)[i] in events && HasStart(Kept(events)[i])
  {
    var n := |events| - 1;
    var init := Kept(events[..n]);
    if i < |init| {
      KeptFromList(events[..n], i);
      assert forall e :: e in events[..n] ==> e in events;
    }
  }

  /** Every event with a start is kept. */
  lemma {:induction false} KeptComplete(events: seq<Record>, i: int)
    requires 0 <= i < |events| && HasStart(events[i])
    ensures events[i] in Kept(events)
  {
    var n := |events| - 1;
    if i < n {
      assert events[..n][i] == events[i];
      KeptComplete(events[..n], i);
    }
  }

  /**
   * Conversely, every event the member accepted or tentatively accepted that
   * has a start is served: some VEVENT of the feed carries its UID.
   */
  lemma AttendedEventsAreServed(events: seq<Record>, availabilities: seq<Record>,
                                locationList: seq<Record>, isIso: string -> bool,
                                stamp: Instant, ev: Record)
    requires FeedOf(events, availabilities, locationList, isIso, stamp).Ok?
    requires ev in events && "id" in ev && HasStart(ev)
    requires Attending(ev, Index(availabilities, "event_id").value)
    ensures exists i :: 0 <= i < |FeedOf(events, availabilities, locationList, isIso, stamp).value.events|
                        && FeedOf(events, availabilities, locationList, isIso, stamp).value.events[i].uid
                           == Uid(Get(ev, "id"))
  {
    var availByEvent := Index(availabilities, "event_id").value;
    var locations := Index(locationList, "id").value;
    var filtered := FilteredOf(events, availabilities).value;
    FilterLaw(events, availByEvent, ev);
    var j :| 0 <= j < |filtered| && filtered[j] == ev;
    KeptComplete(filtered, j);
    var kept := Kept(filtered);
    var k :| 0 <= k < |kept| && kept[k] == ev;
    ComponentsAligned(filtered, locations, map[], isIso, stamp);
    var cs := Components(filtered, locations, map[], isIso, stamp).value;
    assert FeedOf(events, availabilities, locationList, isIso, stamp).value.events == cs;
    VEventFields(ev, locations, map[], isIso, stamp, cs[k]);
  }

  /**
   * No opponent map reaches the generator, so every nameless game in the
   * served feed is titled "[Game] Game Day".
   */
  lemma ServedNamelessGamesAreGameDay(events: seq<Record>, availabilities: seq<Record>,
                                      locationList: seq<Record>, isIso: string -> bool,
                                      stamp: Instant, i: int)
    requires FeedOf(events, availabilities, locationList, isIso, stamp).Ok?
    requires 0 <= i < |FeedOf(events, availabilities, locationList, isIso, stamp).value.events|
    requires var kept := Kept(FilteredOf(events, availabilities).value);
             i < |kept| && IsGame(kept[i]) && Nameless(kept[i])
    ensures FeedOf(events, availabilities, locationList, isIso, stamp).value.events[i].summary
            == "[Game] Game Day"
  {
    var locations := Index(locationList, "id").value;
    var filtered := FilteredOf(events, availabilities).value;
    var cs := Components(filtered, locations, map[], isIso, stamp).value;
    assert FeedOf(events, availabilities, locationList, isIso, stamp).value.events == cs;
    ComponentsAligned(filtered, locations, map[], isIso, stamp);
    var ev := Kept(filtered)[i];
    VEventFields(ev, locations, map[], isIso, stamp, cs[i]);
    NoOpponentsGameDay(ev);
  }

  /** Without opponents, a nameless game's SUMMARY is "[Game] Game Day". */
  lemma {:induction false} NoOpponentsGameDay(ev: Record)
    requires IsGame(ev) && Nameless(ev)
    ensures Summary(ev, map[]) == "[Game] Game Day"
  {
    SummaryCases(ev, map[]);
  }

  // ---------------------------------------------------------------------------
  // Result cache
  // ---------------------------------------------------------------------------

  type Bytes = seq<bv8>

  /** `CACHE_TTL`: seconds an entry stays fresh. */
  const CacheTtl: real := 300.0

  /** `{"data": data, "ts": ts}`: the stored feed and the `time.time()` it was stored at. */
  datatype CacheEntry = CacheEntry(data: Bytes, ts: real)

  /** What `_get_cached` returns for `key` at time `now`, given the stored entries. */
  function Cached(entries: map<string, CacheEntry>, key: string, now: real): (r: Option<Bytes>)
    ensures r.Some? <==> key in entries && now - entries[key].ts < CacheTtl
    ensures r.Some? ==> r.value == entries[key].data
  {
    if key in entries && now - entries[key].ts < CacheTtl then Some(entries[key].data) else None
  }

  /** A get less than 300 s after a set for the same key returns exactly what was stored. */
  lemma FreshAfterSet(entries: map<string, CacheEntry>, key: string, data: Bytes, setAt: real, now: real)
    requires now - setAt < CacheTtl
    ensures Cached(entries[key := CacheEntry(data, setAt)], key, now) == Some(data)
  {
  }

  /** An entry 300 s old or older reads as absent (the window is strict). */
  lemma ExpiredAfterTtl(entries: map<string, CacheEntry>, key: string, now: real)
    requires key in entries && now - entries[key].ts >= CacheTtl
    ensures Cached(entries, key, now) == None
  {
  }

  /** A set for one key changes no other key's lookup. */
  lemma SetKeepsOtherKeys(entries: map<string, CacheEntry>, key: string, entry: CacheEntry,
                          other: string, now: real)
    requires other != key
    ensures Cached(entries[key := entry], other, now) == Cached(entries, other, now)
  {
  }

  /**
   * The module-level `_cache` dict. Entries are never removed: an expired
   * entry stays until a set for its key overwrites it.
   */
  class FeedCache {
    var entries: map<string, CacheEntry>

    constructor ()
      ensures entries == map[]
    {
      entries := map[];
    }

    /** `_get_cached(team_id)` at clock reading `now`; reading changes nothing. */
    method Get(key: string, now: real) returns (r: Option<Bytes>)
      ensures r == Cached(entries, key, now)
      ensures r.Some? <==> key in entries && now - entries[key].ts < CacheTtl
    {
      if key in entries {
        var entry := entries[key];
        if now - entry.ts < CacheTtl {
          return Some(entry.data);
        }
      }
      r := None;
    }

    /** `_set_cached(team_id, data)` at clock reading `now`: replaces only that key's entry. */
    method Set(key: string, data: Bytes, now: real)
      modifies this
      ensures entries == old(entries)[key := CacheEntry(data, now)]
      ensures forall k :: k in old(entries) && k != key ==> k in entries && entries[k] == old(entries)[k]
      ensures entries.Keys == old(entries.Keys) + {key}
    {
      entries := entries[key := CacheEntry(data, now)];
    }
  }

  /**
   * A set followed by a get for the same key less than 300 s later returns the
   * bytes stored, and a get for another key still sees what it saw before.
   */
  method SetThenGet(cache: FeedCache, key: string, data: Bytes, setAt: real, now: real, other: string)
    returns (got: Option<Bytes>, gotOther: Option<Bytes>)
    requires now - setAt < CacheTtl
    requires other != key
    modifies cache
    ensures got == Some(data)
    ensures gotOther == Cached(old(cache.entries), other, now)
  {
    cache.Set(key, data, setAt);
    got := cache.Get(key, now);
    gotOther := cache.Get(other, now);
  }
}
