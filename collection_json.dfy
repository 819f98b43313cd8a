/**
 * Flattening of TeamSnap's Collection+JSON responses into flat records, and
 * the choice of the caller's member record from a member search.
 *
 * A response is `{"collection": {"items": [{"data": [{"name": n, "value": v}, ...]}, ...]}}`;
 * each key that may be missing is an `Option` here.
 */
module CollectionJson {
  import opened PyValues

  /** One `{"name": ..., "value": ...}` pair of an item's `data` list. */
  datatype Entry = Entry(name: Option<string>, value: Option<Value>)

  datatype Item = Item(data: Option<seq<Entry>>)

  datatype Collection = Collection(items: Option<seq<Item>>)

  datatype Response = Response(collection: Option<Collection>)

  /** `response_json.get("collection", {}).get("items", [])`. */
  function ResponseItems(resp: Response): (items: seq<Item>)
    ensures resp.collection.None? ==> items == []
    ensures resp.collection.Some? && resp.collection.value.items.None? ==> items == []
    ensures resp.collection.Some? && resp.collection.value.items.Some? ==>
              items == resp.collection.value.items.value
  {
    match resp.collection
    case None => []
    case Some(c) => if c.items.Some? then c.items.value else []
  }

  /** `item.get("data", [])`. */
  function ItemData(item: Item): seq<Entry> {
    if item.data.Some? then item.data.value else []
  }

  /** An item without "data" flattens to the empty record. */
  lemma ItemWithoutData(item: Item)
    requires item.data.None?
    ensures EntriesRecord(ItemData(item)) == Ok(map[])
  {
  }

  predicate HasNameAndValue(e: Entry) {
    e.name.Some? && e.value.Some?
  }

  /** The KeyError `entry["name"]` or else `entry["value"]` raises. */
  function EntryError(e: Entry): Error {
    if e.name.None? then KeyError("name") else KeyError("value")
  }

  /**
   * `{entry["name"]: entry["value"] for entry in data}`: entries are taken in
   * order, so a later entry with the same name overwrites an earlier one, and
   * the first entry missing a key raises.
   */
  function EntriesRecord(data: seq<Entry>): Result<Record> {
    if data == [] then Ok(map[])
    else
      var last := data[|data| - 1];
      match EntriesRecord(data[..|data| - 1])
      case Err(e) => Err(e)
      case Ok(m) =>
        if !HasNameAndValue(last) then Err(EntryError(last))
        else Ok(m[last.name.value := last.value.value])
  }

  /** The names the entries of `data` carry. */
  ghost function Names(data: seq<Entry>): set<string> {
    set i | 0 <= i < |data| && data[i].name.Some? :: data[i].name.value
  }

  /** Entry `i` is the last one in `data` with its name. */
  ghost predicate LastWithName(data: seq<Entry>, i: int)
    requires 0 <= i < |data|
  {
    forall j :: i < j < |data| ==> data[j].name != data[i].name
  }

  /** Flattening an item succeeds exactly when every entry has both keys. */
  lemma {:induction false} EntriesRecordOk(data: seq<Entry>)
    ensures EntriesRecord(data).Ok? <==> forall i :: 0 <= i < |data| ==> HasNameAndValue(data[i])
  {
    if data != [] {
      var n := |data| - 1;
      EntriesRecordOk(data[..n]);
      assert forall i :: 0 <= i < n ==> data[..n][i] == data[i];
    }
  }

  /** The flattened record's keys are exactly the entry names. */
  lemma {:induction false} EntriesRecordKeys(data: seq<Entry>)
    requires EntriesRecord(data).Ok?
    ensures EntriesRecord(data).value.Keys == Names(data)
  {
    if data != [] {
      var n := |data| - 1;
      var init := data[..n];
      EntriesRecordKeys(init);
      assert forall i :: 0 <= i < n ==> data[i].name == init[i].name;
      assert Names(data) == Names(init) + {data[n].name.value};
    }
  }

  /** Each name maps to the value of the last entry that carries it. */
  lemma {:induction false} EntriesRecordLastWins(data: seq<Entry>, i: int)
    requires EntriesRecord(data).Ok?
    requires 0 <= i < |data| && LastWithName(data, i)
    ensures data[i].name.Some? && data[i].value.Some?
    ensures && data[i].name.value in EntriesRecord(data).value
            && EntriesRecord(data).value[data[i].name.value] == data[i].value.value
  {
    var n := |data| - 1;
    var init := data[..n];
    EntriesRecordOk(data);
    if i < n {
      assert init[i] == data[i];
      assert LastWithName(init, i) by {
        assert forall j :: i < j < n ==> init[j] == data[j];
      }
      EntriesRecordLastWins(init, i);
    }
  }

  /** The error flattening reports is that of the first malformed entry. */
  lemma {:induction false} EntriesRecordFirstError(data: seq<Entry>)
    requires EntriesRecord(data).Err?
    ensures exists i :: 0 <= i < |data| && !HasNameAndValue(data[i])
                        && EntriesRecord(data).error == EntryError(data[i])
                        && forall j :: 0 <= j < i ==> HasNameAndValue(data[j])
  {
    var n := |data| - 1;
    var init := data[..n];
    assert forall j :: 0 <= j < n ==> init[j] == data[j];
    if EntriesRecord(init).Err? {
      EntriesRecordFirstError(init);
      var i :| 0 <= i < |init| && !HasNameAndValue(init[i])
               && EntriesRecord(init).error == EntryError(init[i])
               && forall j :: 0 <= j < i ==> HasNameAndValue(init[j]);
      assert EntriesRecord(data).error == EntryError(data[i]);
    } else {
      EntriesRecordOk(init);
      assert !HasNameAndValue(data[n]) && EntriesRecord(data).error == EntryError(data[n]);
    }
  }

  /**
   * `_parse_collection_items`: one flat record per item, in item order; a
   * response without "collection" or "items" gives the empty list, an item
   * without "data" the empty record.
   */
  method ParseCollectionItems(resp: Response) returns (r: Result<seq<Record>>)
    ensures r.Ok? ==> |r.value| == |ResponseItems(resp)|
    ensures r.Ok? ==> forall i :: 0 <= i < |r.value| ==>
                        EntriesRecord(ItemData(ResponseItems(resp)[i])) == Ok(r.value[i])
    ensures r.Err? ==> exists i :: 0 <= i < |ResponseItems(resp)|
                        && EntriesRecord(ItemData(ResponseItems(resp)[i])) == Err(r.error)
                        && forall j :: 0 <= j < i ==> EntriesRecord(ItemData(ResponseItems(resp)[j])).Ok?
  {
    var items := ResponseItems(resp);
    var result: seq<Record> := [];
    var k := 0;
    while k < |items|
      invariant 0 <= k <= |items|
      invariant |result| == k
      invariant forall i :: 0 <= i < k ==> EntriesRecord(ItemData(items[i])) == Ok(result[i])
    {
      var obj := EntriesRecord(ItemData(items[k]));
      if obj.Err? {
        return Err(obj.error);
      }
      result := result + [obj.value];
      k := k + 1;
    }
    r := Ok(result);
  }

  /** A response without "collection", or whose collection has no "items", flattens to []. */
  method ParseEmptyResponses() returns (a: Result<seq<Record>>, b: Result<seq<Record>>)
    ensures a == Ok([]) && b == Ok([])
  {
    a := ParseCollectionItems(Response(None));
    b := ParseCollectionItems(Response(Some(Collection(None))));
  }

  /**
   * The member choice of `get_member_id`: the first item of the member search
   * for (team, user), or ValueError when the search found nobody.
   */
  function SelectMember(items: seq<Record>, userId: Value, teamId: string): (r: Result<Value>)
    ensures r.Ok? <==> items != [] && "id" in items[0]
    ensures r.Ok? ==> r.value == items[0]["id"]
    ensures items == [] ==> r.Err? && r.error.ValueError?
    ensures items != [] && "id" !in items[0] ==> r == Err(KeyError("id"))
  {
    if items == [] then
      Err(ValueError("No member found for user " + Str(userId) + " on team " + teamId))
    else if "id" in items[0] then Ok(items[0]["id"])
    else Err(KeyError("id"))
  }
}
