/**
 * The feed generator: each TeamSnap event record becomes one VEVENT
 * (section 3.6.1 of RFC 5545), held here as a record of the properties the
 * generator adds, before the calendar library serialises it.
 */
module IcalGenerator {
  import opened PyValues

  /**
   * A parsed date-time. Parsing itself is left to an abstract acceptance
   * predicate `isIso` (standing for `datetime.fromisoformat`), so an instant is
   * identified with the text that was handed to the parser.
   */
  datatype Instant = Instant(iso: string)

  /**
   * One VEVENT: the properties the generator adds, each at most once; an
   * optional property the generator does not add is None.
   */
  datatype VEvent = VEvent(
    uid: string,
    summary: string,
    dtstart: Instant,
    dtend: Option<Instant>,
    location: Option<string>,
    description: Option<string>,
    status: Option<string>,
    dtstamp: Instant)

  /** The VCALENDAR: PRODID, VERSION and X-WR-CALNAME, then the VEVENTs in order. */
  datatype Calendar = Calendar(prodid: string, version: string, calname: string, events: seq<VEvent>)

  /**
   * A lookup dict (`locations_by_id`, `opponents_by_id`), keyed by `Key(id)`:
   * a bool key is held as the integer it equals, as Python's dict does.
   */
  type Lookup = m: map<Value, Record> | forall k :: k in m ==> !k.VBool? witness map[]

  const ProdId := "-//ts-subscribe//TeamSnap Filtered Feed//EN"
  const CalendarName := "TeamSnap (Attending)"
  const CanceledMarker := "** CANCELED **"

  // ---------------------------------------------------------------------------
  // _parse_dt
  // ---------------------------------------------------------------------------

  /** `value.replace("Z", "+00:00")`. */
  function ReplaceZ(s: string): (r: string)
    ensures 'Z' !in r
  {
    if s == [] then []
    else (if s[0] == 'Z' then "+00:00" else [s[0]]) + ReplaceZ(s[1..])
  }

  /** Text without a 'Z' is left alone, so replacing twice is replacing once. */
  lemma {:induction false} ReplaceZKeepsZFree(s: string)
    requires 'Z' !in s
    ensures ReplaceZ(s) == s
  {
    if s != [] {
      assert 'Z' !in s[1..] by {
        assert forall c :: c in s[1..] ==> c in s;
      }
      ReplaceZKeepsZFree(s[1..]);
    }
  }

  lemma ReplaceZIdempotent(s: string)
    ensures ReplaceZ(ReplaceZ(s)) == ReplaceZ(s)
  {
    ReplaceZKeepsZFree(ReplaceZ(s));
  }

  /** A trailing UTC designator becomes an explicit "+00:00" offset. */
  lemma {:induction false} ReplaceZZulu(s: string)
    requires 'Z' !in s
    ensures ReplaceZ(s + "Z") == s + "+00:00"
  {
    if s == [] {
      assert ReplaceZ("Z") == "+00:00" + ReplaceZ([]);
    } else {
      assert (s + "Z")[1..] == s[1..] + "Z";
      assert 'Z' !in s[1..] by {
        assert forall c :: c in s[1..] ==> c in s;
      }
      ReplaceZZulu(s[1..]);
    }
  }

  function TypeName(v: Value): string {
    match v
    case VNone => "NoneType"
    case VBool(_) => "bool"
    case VInt(_) => "int"
    case VStr(_) => "str"
  }

  /**
   * `_parse_dt`: None for a falsy value; otherwise the value's "Z" are
   * replaced by "+00:00" and the result parsed, which raises when the value is
   * not a string (no `replace`) or the parser rejects it.
   */
  function ParseDt(v: Value, isIso: string -> bool): (r: Result<Option<Instant>>)
    ensures r == Ok(None) <==> !Truthy(v)
    ensures r.Ok? && r.value.Some? <==> Truthy(v) && v.VStr? && isIso(ReplaceZ(v.s))
    ensures r.Ok? && r.value.Some? ==> r.value.value == Instant(ReplaceZ(v.s))
    ensures Truthy(v) && !v.VStr? ==> r.Err? && r.error.AttributeError?
    ensures Truthy(v) && v.VStr? && !isIso(ReplaceZ(v.s)) ==> r.Err? && r.error.ValueError?
  {
    if !Truthy(v) then Ok(None)
    else if !v.VStr? then Err(AttributeError("'" + TypeName(v) + "' object has no attribute 'replace'"))
    else
      var s := ReplaceZ(v.s);
      if isIso(s) then Ok(Some(Instant(s)))
      else Err(ValueError("Invalid isoformat string: '" + s + "'"))
  }

  // ---------------------------------------------------------------------------
  // Per-event fields
  // ---------------------------------------------------------------------------

  /** `f"teamsnap-event-{event_id}@ts-subscribe"`. */
  function Uid(id: Value): string {
    "teamsnap-event-" + Str(id) + "@ts-subscribe"
  }

  /**
   * The UID is a function of the event id alone, and two events whose ids are
   * both integers (or both strings) get the same UID only when the ids agree.
   */
  lemma UidInjective(a: Value, b: Value)
    requires Uid(a) == Uid(b)
    requires (a.VInt? && b.VInt?) || (a.VStr? && b.VStr?)
    ensures a == b
  {
    var p := "teamsnap-event-";
    var q := "@ts-subscribe";
    assert Str(a) == Uid(a)[|p|..|Uid(a)| - |q|];
    assert Str(b) == Uid(b)[|p|..|Uid(b)| - |q|];
    if a.VInt? {
      IntToStringInjective(a.i, b.i);
    }
  }

  function OpponentsOrEmpty(opponents: Option<Lookup>): Lookup {
    if opponents.Some? then opponents.value else map[]
  }

  predicate IsGame(ev: Record) {
    Truthy(Get(ev, "is_game"))
  }

  /** The event's own name is missing or empty (`ev.get("name") or ""` is falsy). */
  predicate Nameless(ev: Record) {
    !Truthy(Get(ev, "name"))
  }

  /** `opponent_id and opponent_id in opponents_by_id`. */
  predicate OpponentResolves(ev: Record, opponents: Lookup) {
    Truthy(Get(ev, "opponent_id")) && Key(Get(ev, "opponent_id")) in opponents
  }

  /** The name part of SUMMARY. */
  function EventTitle(ev: Record, opponents: Lookup): string {
    if IsGame(ev) && Nameless(ev) then
      if OpponentResolves(ev, opponents) then
        "vs " + Str(GetOr(opponents[Key(Get(ev, "opponent_id"))], "name", VStr("TBD")))
      else "Game Day"
    else if Nameless(ev) then "Untitled"
    else Str(Get(ev, "name"))
  }

  /** `f"{prefix} {name}"` with prefix "[Game]" or "[Event]". */
  function Summary(ev: Record, opponents: Lookup): string {
    (if IsGame(ev) then "[Game]" else "[Event]") + " " + EventTitle(ev, opponents)
  }

  /**
   * How SUMMARY is chosen: the prefix follows `is_game`; an own non-empty name
   * is used as-is; a nameless game is "vs <opponent name>" when the opponent
   * resolves (name defaulting to "TBD") and "Game Day" otherwise; a nameless
   * non-game is "Untitled". The name part is never empty.
   */
  lemma SummaryCases(ev: Record, opponents: Lookup)
    ensures IsGame(ev) ==> Summary(ev, opponents) == "[Game] " + EventTitle(ev, opponents)
    ensures !IsGame(ev) ==> Summary(ev, opponents) == "[Event] " + EventTitle(ev, opponents)
    ensures !Nameless(ev) ==> EventTitle(ev, opponents) == Str(Get(ev, "name"))
    ensures IsGame(ev) && Nameless(ev) && OpponentResolves(ev, opponents) ==>
              var opp := opponents[Key(Get(ev, "opponent_id"))];
              EventTitle(ev, opponents) == "vs " + (if "name" in opp then Str(opp["name"]) else "TBD")
    ensures IsGame(ev) && Nameless(ev) && !OpponentResolves(ev, opponents) ==>
              EventTitle(ev, opponents) == "Game Day"
    ensures !IsGame(ev) && Nameless(ev) ==> EventTitle(ev, opponents) == "Untitled"
    ensures EventTitle(ev, opponents) != ""
  {
    if !Nameless(ev) {
      var name := Get(ev, "name");
      if name.VInt? {
        assert |NatToString(if name.i < 0 then -name.i else name.i)| > 0;
      }
    }
  }

  /** `location_id and location_id in locations_by_id`. */
  predicate LocationResolves(ev: Record, locations: Lookup) {
    Truthy(Get(ev, "location_id")) && Key(Get(ev, "location_id")) in locations
  }

  /** The LOCATION text, if the generator adds one. */
  function LocationText(ev: Record, locations: Lookup): Option<string> {
    if LocationResolves(ev, locations) then
      var loc := locations[Key(Get(ev, "location_id"))];
      var name := GetOr(loc, "name", VStr(""));
      var address := GetOr(loc, "address", VStr(""));
      if Truthy(name) && Truthy(address) then Some(Str(name) + ", " + Str(address))
      else if Truthy(name) then Some(Str(name))
      else None
    else None
  }

  /**
   * LOCATION is present exactly when the location resolves and has a
   * non-empty name; it is "name, address" when the address is non-empty and
   * the name alone otherwise, so an address-only location gives none.
   */
  lemma LocationCases(ev: Record, locations: Lookup)
    ensures LocationText(ev, locations).Some? <==>
              LocationResolves(ev, locations)
              && Truthy(Get(locations[Key(Get(ev, "location_id"))], "name"))
    ensures LocationText(ev, locations).Some? ==>
              var loc := locations[Key(Get(ev, "location_id"))];
              LocationText(ev, locations).value ==
                if Truthy(Get(loc, "address")) then Str(loc["name"]) + ", " + Str(loc["address"])
                else Str(loc["name"])
  {
  }

  // ---------------------------------------------------------------------------
  // DESCRIPTION
  // ---------------------------------------------------------------------------

  /** `sep.join(parts)` for a list of strings. */
  function Join(sep: string, parts: seq<string>): string {
    if parts == [] then ""
    else if |parts| == 1 then parts[0]
    else parts[0] + sep + Join(sep, parts[1..])
  }

  /** Cuts `s` at every `sep`: the inverse of joining with `[sep]`. */
  function Split(s: string, sep: char): (r: seq<string>)
    ensures |r| > 0
  {
    if s == [] then [""]
    else
      var rest := Split(s[1..], sep);
      if s[0] == sep then [""] + rest else [[s[0]] + rest[0]] + rest[1..]
  }

  lemma {:induction false} SplitAppend(t: string, sep: char, s: string)
    requires sep !in t
    ensures Split(t + [sep] + s, sep) == [t] + Split(s, sep)
    ensures Split(t, sep) == [t]
  {
    if t != [] {
      assert (t + [sep] + s)[1..] == t[1..] + [sep] + s;
      assert sep !in t[1..] by {
        assert forall c :: c in t[1..] ==> c in t;
      }
      SplitAppend(t[1..], sep, s);
      assert [t[0]] + t[1..] == t;
    } else {
      assert ([] + [sep] + s)[1..] == s;
    }
  }

  /** Splitting a join of separator-free parts gives the parts back. */
  lemma {:induction false} SplitJoin(parts: seq<string>, sep: char)
    requires parts != []
    requires forall i :: 0 <= i < |parts| ==> sep !in parts[i]
    ensures Split(Join([sep], parts), sep) == parts
  {
    if |parts| == 1 {
      SplitAppend(parts[0], sep, "");
    } else {
      SplitJoin(parts[1..], sep);
      SplitAppend(parts[0], sep, Join([sep], parts[1..]));
      assert parts == [parts[0]] + parts[1..];
    }
  }

  /** The strings of `parts`, or the TypeError `str.join` raises at the first non-string. */
  function TextParts(parts: seq<Value>, index: nat): (r: Result<seq<string>>)
    ensures r.Ok? <==> forall i :: 0 <= i < |parts| ==> parts[i].VStr?
    ensures r.Ok? ==> |r.value| == |parts| && forall i :: 0 <= i < |parts| ==> r.value[i] == parts[i].s
    decreases |parts|
  {
    if parts == [] then Ok([])
    else if !parts[0].VStr? then
      Err(TypeError("sequence item " + IntToString(index) + ": expected str instance, "
                    + TypeName(parts[0]) + " found"))
    else
      match TextParts(parts[1..], index + 1)
      case Err(e) => Err(e)
      case Ok(rest) => Ok([parts[0].s] + rest)
  }

  /** `desc_parts`: notes, the arrival line and the cancellation marker, each when it applies. */
  function DescriptionParts(ev: Record): seq<Value> {
    var notes := Get(ev, "notes");
    var early := Get(ev, "minutes_to_arrive_early");
    (if Truthy(notes) then [notes] else [])
    + (if Truthy(early) then [VStr("Arrive " + Str(early) + " minutes early")] else [])
    + (if Truthy(Get(ev, "is_canceled")) then [VStr(CanceledMarker)] else [])
  }

  /** The DESCRIPTION text, if any: `"\n".join(desc_parts)` when there are parts. */
  function Description(ev: Record): Result<Option<string>> {
    var parts := DescriptionParts(ev);
    if parts == [] then Ok(None)
    else
      match TextParts(parts, 0)
      case Err(e) => Err(e)
      case Ok(lines) => Ok(Some(Join("\n", lines)))
  }

  /** `v` is text without a line break, so it stays one line of the description. */
  predicate OneLine(v: Value) {
    v.VStr? && '\n' !in v.s
  }

  /** The description lines that apply to `ev`, in the order the generator appends them. */
  function DescriptionLinesOf(ev: Record): seq<string> {
    var notes := Get(ev, "notes");
    var early := Get(ev, "minutes_to_arrive_early");
    (if Truthy(notes) then [Str(notes)] else [])
    + (if Truthy(early) then ["Arrive " + Str(early) + " minutes early"] else [])
    + (if Truthy(Get(ev, "is_canceled")) then [CanceledMarker] else [])
  }

  /** DESCRIPTION is omitted exactly when no part applies. */
  lemma DescriptionOmitted(ev: Record)
    ensures Description(ev) == Ok(None) <==> DescriptionLinesOf(ev) == []
  {
  }

  /** Joining the parts raises exactly when the notes are set but are not text. */
  lemma {:induction false} DescriptionFails(ev: Record)
    ensures Description(ev).Err? <==> Truthy(Get(ev, "notes")) && !Get(ev, "notes").VStr?
  {
    var notes := Get(ev, "notes");
    if Truthy(notes) && !notes.VStr? {
      assert DescriptionParts(ev)[0] == notes;
    }
  }

  /** When the join succeeds it joins exactly the applicable lines, in order, with "\n". */
  lemma DescriptionJoins(ev: Record)
    requires Description(ev).Ok? && Description(ev).value.Some?
    ensures Description(ev).value.value == Join("\n", DescriptionLinesOf(ev))
  {
    var parts := DescriptionParts(ev);
    var lines := TextParts(parts, 0).value;
    assert lines == DescriptionLinesOf(ev);
  }

  /** No description line holds a line break when the notes and the arrival value hold none. */
  lemma {:induction false} DescriptionLinesOneLine(ev: Record)
    requires Truthy(Get(ev, "notes")) ==> OneLine(Get(ev, "notes"))
    requires Truthy(Get(ev, "minutes_to_arrive_early")) ==>
               (OneLine(Get(ev, "minutes_to_arrive_early")) || Get(ev, "minutes_to_arrive_early").VInt?)
    ensures forall i :: 0 <= i < |DescriptionLinesOf(ev)| ==> '\n' !in DescriptionLinesOf(ev)[i]
  {
    var early := Get(ev, "minutes_to_arrive_early");
    if early.VInt? {
      IntToStringDigits(early.i);
    }
  }

  /**
   * Reading DESCRIPTION back line by line gives the notes (if non-empty),
   * "Arrive N minutes early" (if N is non-zero) and the cancellation marker
   * (if canceled), in that order, provided no part itself holds a line break.
   */
  lemma DescriptionSplit(ev: Record)
    requires Description(ev).Ok? && Description(ev).value.Some?
    requires Truthy(Get(ev, "notes")) ==> OneLine(Get(ev, "notes"))
    requires Truthy(Get(ev, "minutes_to_arrive_early")) ==>
               (OneLine(Get(ev, "minutes_to_arrive_early")) || Get(ev, "minutes_to_arrive_early").VInt?)
    ensures Split(Description(ev).value.value, '\n') == DescriptionLinesOf(ev)
  {
    DescriptionJoins(ev);
    DescriptionLinesOneLine(ev);
    SplitJoin(DescriptionLinesOf(ev), '\n');
  }

  /** A canceled event's description ends with the cancellation marker. */
  lemma CanceledDescriptionEnds(ev: Record)
    requires Truthy(Get(ev, "is_canceled"))
    ensures DescriptionLinesOf(ev) != []
    ensures DescriptionLinesOf(ev)[|DescriptionLinesOf(ev)| - 1] == CanceledMarker
  {
  }

  // ---------------------------------------------------------------------------
  // One event, then the whole calendar
  // ---------------------------------------------------------------------------

  /**
   * The VEVENT of one event record, `None` when the event has no start, or the
   * error the generator raises on it.
   */
  function VEventOf(ev: Record, locations: Lookup, opponents: Lookup,
                    isIso: string -> bool, stamp: Instant): Result<Option<VEvent>>
  {
    match ParseDt(Get(ev, "start_date"), isIso)
    case Err(e) => Err(e)
    case Ok(None) => Ok(None)
    case Ok(Some(start)) =>
      match ParseDt(Get(ev, "end_date"), isIso)
      case Err(e) => Err(e)
      case Ok(end) =>
        match Description(ev)
        case Err(e) => Err(e)
        case Ok(desc) =>
          var status := if Truthy(Get(ev, "is_canceled")) then Some("CANCELLED") else None;
          Ok(Some(VEvent(Uid(Get(ev, "id")), Summary(ev, opponents), start, end,
                         LocationText(ev, locations), desc, status, stamp)))
  }

  /** An event is kept exactly when `start_date` is truthy and parses. */
  predicate HasStart(ev: Record) {
    Truthy(Get(ev, "start_date"))
  }

  /** The events whose `start_date` is set, in order. */
  function Kept(events: seq<Record>): (r: seq<Record>)
    ensures |r| <= |events|
  {
    if events == [] then []
    else
      var init := Kept(events[..|events| - 1]);
      if HasStart(events[|events| - 1]) then init + [events[|events| - 1]] else init
  }

  /** An event is skipped exactly when its start is missing or empty. */
  lemma EventSkipped(ev: Record, locations: Lookup, opponents: Lookup,
                     isIso: string -> bool, stamp: Instant)
    ensures VEventOf(ev, locations, opponents, isIso, stamp) == Ok(None) <==> !HasStart(ev)
  {
  }

  /**
   * The generator raises on an event exactly when its start, or its end, is
   * set but not parseable text, or its notes are set but not text.
   */
  lemma {:induction false} EventFails(ev: Record, locations: Lookup, opponents: Lookup,
                   isIso: string -> bool, stamp: Instant)
    ensures VEventOf(ev, locations, opponents, isIso, stamp).Err? <==>
              ParseDt(Get(ev, "start_date"), isIso).Err?
              || (HasStart(ev) && ParseDt(Get(ev, "end_date"), isIso).Err?)
              || (HasStart(ev) && Truthy(Get(ev, "notes")) && !Get(ev, "notes").VStr?)
  {
    DescriptionFails(ev);
  }

  /**
   * What each VEVENT carries (RFC 5545 section 3.6.1): UID, SUMMARY, DTSTART
   * and DTSTAMP always; DTEND only when `end_date` is set (no duration is made
   * up); LOCATION and DESCRIPTION as their rules say; STATUS "CANCELLED" only
   * for a canceled event.
   */
  lemma VEventFields(ev: Record, locations: Lookup, opponents: Lookup,
                     isIso: string -> bool, stamp: Instant, ve: VEvent)
    requires VEventOf(ev, locations, opponents, isIso, stamp) == Ok(Some(ve))
    ensures ve.uid == Uid(Get(ev, "id"))
    ensures ve.summary == Summary(ev, opponents)
    ensures Get(ev, "start_date").VStr? && ve.dtstart == Instant(ReplaceZ(Get(ev, "start_date").s))
    ensures ve.dtend.Some? <==> Truthy(Get(ev, "end_date"))
    ensures ve.dtend.Some? ==> ve.dtend.value == Instant(ReplaceZ(Get(ev, "end_date").s))
    ensures ve.location == LocationText(ev, locations)
    ensures ve.description.Some? <==> DescriptionLinesOf(ev) != []
    ensures ve.description.Some? ==> ve.description.value == Join("\n", DescriptionLinesOf(ev))
    ensures ve.status.Some? <==> Truthy(Get(ev, "is_canceled"))
    ensures ve.status.Some? ==> ve.status.value == "CANCELLED"
    ensures ve.dtstamp == stamp
  {
    DescriptionOmitted(ev);
    if ve.description.Some? {
      DescriptionJoins(ev);
    }
  }

  /** The VEVENTs of `events` in order, or the first error raised. */
  function Components(events: seq<Record>, locations: Lookup, opponents: Lookup,
                      isIso: string -> bool, stamp: Instant): Result<seq<VEvent>>
  {
    if events == [] then Ok([])
    else
      match Components(events[..|events| - 1], locations, opponents, isIso, stamp)
      case Err(e) => Err(e)
      case Ok(done) =>
        match VEventOf(events[|events| - 1], locations, opponents, isIso, stamp)
        case Err(e) => Err(e)
        case Ok(None) => Ok(done)
        case Ok(Some(ve)) => Ok(done + [ve])
  }

  /**
   * Each event with a start yields exactly one VEVENT and every other event
   * none, in input order: the i-th VEVENT is that of the i-th kept event.
   */
  lemma {:induction false} ComponentsAligned(events: seq<Record>, locations: Lookup, opponents: Lookup,
                                             isIso: string -> bool, stamp: Instant)
    requires Components(events, locations, opponents, isIso, stamp).Ok?
    ensures var cs := Components(events, locations, opponents, isIso, stamp).value;
      && |cs| == |Kept(events)|
      && forall i :: 0 <= i < |cs| ==>
           VEventOf(Kept(events)[i], locations, opponents, isIso, stamp) == Ok(Some(cs[i]))
  {
    if events != [] {
      var n := |events| - 1;
      ComponentsAligned(events[..n], locations, opponents, isIso, stamp);
      var last := events[n];
      if HasStart(last) {
        EventSkipped(last, locations, opponents, isIso, stamp);
      }
    }
  }

  /** The generator fails exactly when some event makes it raise. */
  lemma {:induction false} ComponentsFail(events: seq<Record>, locations: Lookup, opponents: Lookup,
                                          isIso: string -> bool, stamp: Instant)
    ensures Components(events, locations, opponents, isIso, stamp).Err? <==>
              exists i :: 0 <= i < |events| && VEventOf(events[i], locations, opponents, isIso, stamp).Err?
  {
    if events != [] {
      var n := |events| - 1;
      ComponentsFail(events[..n], locations, opponents, isIso, stamp);
      assert forall i :: 0 <= i < n ==> events[..n][i] == events[i];
    }
  }

  /**
   * Regenerating with another clock reading changes nothing but DTSTAMP: the
   * same VEVENTs, with the same UIDs and every other property, in the same order.
   */
  lemma {:induction false} RegenerateSameEvents(events: seq<Record>, locations: Lookup, opponents: Lookup,
                                                isIso: string -> bool, s1: Instant, s2: Instant)
    ensures Components(events, locations, opponents, isIso, s1).Ok?
            == Components(events, locations, opponents, isIso, s2).Ok?
    ensures Components(events, locations, opponents, isIso, s1).Ok? ==>
              var c1 := Components(events, locations, opponents, isIso, s1).value;
              var c2 := Components(events, locations, opponents, isIso, s2).value;
              |c1| == |c2| && forall i :: 0 <= i < |c1| ==> c2[i] == c1[i].(dtstamp := s2)
  {
    if events != [] {
      var n := |events| - 1;
      RegenerateSameEvents(events[..n], locations, opponents, isIso, s1, s2);
    }
  }

  /**
   * `generate_ical`: the calendar header, then one VEVENT per event that has a
   * start, in input order; with no opponent map every opponent is unresolved.
   */
  method GenerateIcal(events: seq<Record>, locations: Lookup, opponents: Option<Lookup>,
                      isIso: string -> bool, stamp: Instant) returns (r: Result<Calendar>)
    ensures r.Ok? <==> Components(events, locations, OpponentsOrEmpty(opponents), isIso, stamp).Ok?
    ensures r.Ok? ==> r.value == Calendar(ProdId, "2.0", CalendarName,
                        Components(events, locations, OpponentsOrEmpty(opponents), isIso, stamp).value)
    ensures r.Err? ==> r.error == Components(events, locations, OpponentsOrEmpty(opponents), isIso, stamp).error
  {
    var opps := if opponents.Some? then opponents.value else map[];
    var components: seq<VEvent> := [];
    var k := 0;
    while k < |events|
      invariant 0 <= k <= |events|
      invariant Components(events[..k], locations, opps, isIso, stamp) == Ok(components)
    {
      assert events[..k + 1][..k] == events[..k];
      var ve := VEventOf(events[k], locations, opps, isIso, stamp);
      if ve.Err? {
        assert Components(events[..k + 1], locations, opps, isIso, stamp) == Err(ve.error);
        ComponentsFirstError(events, k + 1, locations, opps, isIso, stamp);
        return Err(ve.error);
      }
      if ve.value.Some? {
        components := components + [ve.value.value];
      }
      k := k + 1;
    }
    assert events[..k] == events;
    r := Ok(Calendar(ProdId, "2.0", CalendarName, components));
  }

  /** Once a prefix of the events fails, the whole list fails with the same error. */
  lemma {:induction false} ComponentsFirstError(events: seq<Record>, k: nat, locations: Lookup, opponents: Lookup,
                                                isIso: string -> bool, stamp: Instant)
    requires k <= |events|
    requires Components(events[..k], locations, opponents, isIso, stamp).Err?
    ensures Components(events, locations, opponents, isIso, stamp)
            == Components(events[..k], locations, opponents, isIso, stamp)
    decreases |events|
  {
    if k < |events| {
      var n := |events| - 1;
      assert events[..n][..k] == events[..k];
      ComponentsFirstError(events[..n], k, locations, opponents, isIso, stamp);
    } else {
      assert events[..k] == events;
    }
  }
}
