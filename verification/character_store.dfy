/** The Firestore half of `CharactersService`: create, read-all, read-by-id, update
    and delete over the `characters` collection. The collection is a map from
    document id to the document's fields; each operation takes the collection
    before the call and, when it writes, returns the collection after it. */
module CharacterStore {
  import opened Wrappers
  import opened JsValue

  /** The `characters` collection: document id to stored fields. */
  type Store = map<string, Record>

  /** A `NotFoundException` and its message. */
  datatype StoreError = NotFound(message: string)

  /** The `{ success: true }` answer of delete. */
  datatype Deleted = Deleted(success: bool)

  /** The message of every not-found error: `Character with ID "<id>" not found in Firestore`. */
  function NotFoundMessage(id: string): string {
    "Character with ID \"" + id + "\" not found in Firestore"
  }

  /** `s` holds `part` starting at position `i`. */
  predicate ContainsAt(s: string, part: string, i: int) {
    0 <= i <= |s| - |part| && s[i..i + |part|] == part
  }

  /** `s` holds `part` as a contiguous piece. */
  ghost predicate Contains(s: string, part: string) {
    exists i :: ContainsAt(s, part, i)
  }

  /** The not-found message names the id that was asked for. */
  lemma NotFoundMessageNamesId(id: string)
    ensures Contains(NotFoundMessage(id), id)
  {
    var m := NotFoundMessage(id);
    var prefix := "Character with ID \"";
    assert m[|prefix|..|prefix| + |id|] == id;
    assert ContainsAt(m, id, |prefix|);
  }

  /** `{ ...doc, id }`: the stored fields with `id` forced to the document id. */
  function WithId(doc: Record, id: string): Record {
    doc["id" := Str(id)]
  }

  /** The fields create sets whatever the input says. */
  const StampedKeys: set<string> := {"id", "url", "created"}

  /** The fields create backfills when the input's value is falsy or absent. */
  const BackfilledKeys: set<string> :=
    {"name", "status", "species", "type", "gender", "origin", "location", "image", "episode"}

  /** The default of a backfilled field. */
  function Default(key: string): Value {
    if key == "name" then Str("Unknown")
    else if key == "status" then Str("unknown")
    else if key == "gender" then Str("unknown")
    else if key == "origin" || key == "location" then EmptyReference
    else if key == "episode" then Arr([])
    else Str("")
  }

  /** The fields create sets whatever the input says: `id: docRef.id`, `url: ''`
      and `created: now`. */
  function Stamps(id: string, now: string): (m: Record)
    ensures m.Keys == StampedKeys
  {
    map["id" := Str(id), "url" := Str(""), "created" := Str(now)]
  }

  /** The backfilled fields of create's literal: `key: data.key || default`. */
  function Backfill(data: Record): (m: Record)
    ensures m.Keys == BackfilledKeys
  {
    map key | key in BackfilledKeys :: OrElse(data, key, Default(key))
  }

  /** The object create returns: the input spread first, then the twelve fields the
      literal lists after the spread. So the id, url and creation time are set;
      every backfilled field holds the input's value when that is truthy and its
      default otherwise; every other input field is kept as given; and there are
      no other fields. */
  function CreatedView(data: Record, id: string, now: string): (v: Record)
    ensures "id" in v && v["id"] == Str(id)
    ensures "url" in v && v["url"] == Str("")
    ensures "created" in v && v["created"] == Str(now)
    ensures forall key :: key in BackfilledKeys ==>
      key in v && v[key] == (if key in data && Truthy(data[key]) then data[key] else Default(key))
    ensures forall key :: key in data && key !in StampedKeys && key !in BackfilledKeys ==>
      key in v && v[key] == data[key]
    ensures v.Keys == data.Keys + StampedKeys + BackfilledKeys
  {
    var filled := Backfill(data);
    var stamps := Stamps(id, now);
    StampedAndBackfilledDisjoint();
    assert forall key :: key in filled ==> key !in stamps;
    Spread(data, filled + stamps)
  }

  /** What create returns, and the collection after it. */
  datatype Created = Created(view: Record, after: Store)

  /** `createCharacterInFirestore(data)`: `add(data)` under the id Firestore hands
      out (`freshId`), at time `now`. The document written is `data` itself. */
  function Create(store: Store, data: Record, freshId: string, now: string): (r: Created)
    requires freshId !in store
    ensures r.after.Keys == store.Keys + {freshId}
    ensures r.after[freshId] == data
    ensures forall id :: id in store ==> r.after[id] == store[id]
    ensures r.view == CreatedView(data, freshId, now)
  {
    Created(CreatedView(data, freshId, now), Insert(store, freshId, data))
  }

  /** `add(data)`: the collection gains one document under a new id. */
  function Insert(store: Store, freshId: string, data: Record): (after: Store)
    requires freshId !in store
    ensures after.Keys == store.Keys + {freshId}
    ensures after[freshId] == data
    ensures forall id :: id in store ==> after[id] == store[id]
  {
    store[freshId := data]
  }

  lemma StampedAndBackfilledDisjoint()
    ensures StampedKeys !! BackfilledKeys
  {
  }

  /** `getCharacterByIdFromFirestore(id)`. */
  function GetById(store: Store, id: string): (r: Result<Record, StoreError>)
    ensures r.Success? <==> id in store
    ensures r.Success? ==>
      && "id" in r.value && r.value["id"] == Str(id)
      && r.value.Keys == store[id].Keys + {"id"}
      && forall key :: key in store[id] && key != "id" ==> r.value[key] == store[id][key]
    ensures r.Failure? ==> r.error == NotFound(NotFoundMessage(id)) && Contains(r.error.message, id)
  {
    if id in store then Success(WithId(store[id], id))
    else
      NotFoundMessageNamesId(id);
      Failure(NotFound(NotFoundMessage(id)))
  }

  /** `doc` is what a read of some document of `store` returns. */
  ghost predicate IsReadOf(store: Store, doc: Record) {
    exists id :: id in store && doc == WithId(store[id], id)
  }

  /** `getAllCharactersFromFirestore()`: every document, each with its id, in the
      order the snapshot lists them, which is the store's to choose. */
  method GetAll(store: Store) returns (docs: seq<Record>)
    ensures |docs| == |store|
    ensures forall i :: 0 <= i < |docs| ==>
      "id" in docs[i] && docs[i]["id"].Str? && docs[i]["id"].s in store &&
      docs[i] == WithId(store[docs[i]["id"].s], docs[i]["id"].s)
    ensures forall id :: id in store ==> WithId(store[id], id) in docs
    ensures forall i, j :: 0 <= i < j < |docs| ==> docs[i]["id"] != docs[j]["id"]
  {
    var remaining := store.Keys;
    docs := [];
    while remaining != {}
      invariant remaining <= store.Keys
      invariant |docs| + |remaining| == |store|
      invariant forall i :: 0 <= i < |docs| ==>
        "id" in docs[i] && docs[i]["id"].Str? && docs[i]["id"].s in store &&
        docs[i]["id"].s !in remaining &&
        docs[i] == WithId(store[docs[i]["id"].s], docs[i]["id"].s)
      invariant forall id :: id in store && id !in remaining ==> WithId(store[id], id) in docs
      invariant forall i, j :: 0 <= i < j < |docs| ==> docs[i]["id"] != docs[j]["id"]
      decreases remaining
    {
      var id :| id in remaining;
      docs := docs + [WithId(store[id], id)];
      remaining := remaining - {id};
    }
  }

  /** Two listings of the same collection hold the same records: reading all twice
      with no write in between gives the same set, whatever order each comes in. */
  lemma ListingsAgree(store: Store, a: seq<Record>, b: seq<Record>)
    requires forall i :: 0 <= i < |a| ==> IsReadOf(store, a[i])
    requires forall id :: id in store ==> WithId(store[id], id) in a
    requires forall i :: 0 <= i < |b| ==> IsReadOf(store, b[i])
    requires forall id :: id in store ==> WithId(store[id], id) in b
    ensures (set d | d in a) == (set d | d in b)
  {
    forall d | d in a ensures d in b {
      var i :| 0 <= i < |a| && a[i] == d;
      assert IsReadOf(store, a[i]);
    }
    forall d | d in b ensures d in a {
      var i :| 0 <= i < |b| && b[i] == d;
      assert IsReadOf(store, b[i]);
    }
  }

  /** Reading all twice with no write in between gives the same set of records. */
  method GetAllTwice(store: Store) returns (first: seq<Record>, second: seq<Record>)
    ensures (set d | d in first) == (set d | d in second)
    ensures |first| == |second| == |store|
  {
    first := GetAll(store);
    second := GetAll(store);
    forall i | 0 <= i < |first| ensures IsReadOf(store, first[i]) {
      var id := first[i]["id"].s;
      assert first[i] == WithId(store[id], id);
    }
    forall i | 0 <= i < |second| ensures IsReadOf(store, second[i]) {
      var id := second[i]["id"].s;
      assert second[i] == WithId(store[id], id);
    }
    ListingsAgree(store, first, second);
  }

  /** What update returns, and the collection after it. */
  datatype Updated = Updated(result: Result<Record, StoreError>, after: Store)

  /** `updateCharacterInFirestore(id, data)`: check the document exists, write the
      shallow overlay of `data`, and return the pre-write snapshot overlaid by
      `data`, with `id` forced to the document id. */
  function Update(store: Store, id: string, data: Record): (r: Updated)
    ensures id !in store ==> r.result == Failure(NotFound(NotFoundMessage(id))) && r.after == store
    ensures id in store ==>
      && r.after.Keys == store.Keys
      && r.after[id] == Spread(store[id], data)
      && (forall other :: other in store && other != id ==> r.after[other] == store[other])
      && r.result.Success?
      && "id" in r.result.value && r.result.value["id"] == Str(id)
      && r.result.value.Keys == store[id].Keys + data.Keys + {"id"}
      && (forall key :: key in data && key != "id" ==> r.result.value[key] == data[key])
      && (forall key :: key in store[id] && key !in data && key != "id" ==>
            r.result.value[key] == store[id][key])
  {
    if id !in store then Updated(Failure(NotFound(NotFoundMessage(id))), store)
    else
      var snapshot := store[id];
      Updated(Success(Spread(snapshot, data)["id" := Str(id)]), store[id := Spread(snapshot, data)])
  }

  /** What delete returns, and the collection after it. */
  datatype Removed = Removed(result: Result<Deleted, StoreError>, after: Store)

  /** `deleteCharacterFromFirestore(id)`: check the document exists, then delete it. */
  function Delete(store: Store, id: string): (r: Removed)
    ensures id !in store ==> r.result == Failure(NotFound(NotFoundMessage(id))) && r.after == store
    ensures id in store ==>
      && r.result == Success(Deleted(true))
      && r.after.Keys == store.Keys - {id}
      && forall other :: other in r.after ==> r.after[other] == store[other]
  {
    if id !in store then Removed(Failure(NotFound(NotFoundMessage(id))), store)
    else Removed(Success(Deleted(true)), store - {id})
  }

  /** Reading a freshly created document gives back exactly the caller's fields plus
      the id, not the backfilled object create returned. */
  lemma CreateThenRead(store: Store, data: Record, freshId: string, now: string)
    requires freshId !in store
    ensures GetById(Create(store, data, freshId, now).after, freshId) == Success(WithId(data, freshId))
  {
  }

  /** Creating `{}` returns a view with name "Unknown", while the stored document
      has no name at all: the returned object is not what was written. */
  lemma CreatedViewIsNotStored(store: Store, freshId: string, now: string)
    requires freshId !in store
    ensures var c := Create(store, map[], freshId, now);
      && c.view["name"] == Str("Unknown")
      && "name" !in GetById(c.after, freshId).value
      && GetById(c.after, freshId).value != c.view
  {
  }

  /** The create example: `{ name: "Morty" }` keeps the name and is stamped with
      the fresh id, an empty url and the creation time. */
  lemma CreateMorty(store: Store, freshId: string, now: string)
    requires freshId !in store
    ensures var v := Create(store, map["name" := Str("Morty")], freshId, now).view;
      && v["id"] == Str(freshId) && v["name"] == Str("Morty")
      && v["url"] == Str("") && v["created"] == Str(now)
  {
  }

  /** In the same example every field the input leaves out gets its default:
      unknown status and gender, empty origin and location, no episodes. */
  lemma CreateMortyDefaults(store: Store, freshId: string, now: string)
    requires freshId !in store
    ensures var v := Create(store, map["name" := Str("Morty")], freshId, now).view;
      && v["status"] == Str("unknown") && v["gender"] == Str("unknown")
      && v["origin"] == EmptyReference && v["location"] == EmptyReference
      && v["episode"] == Arr([])
  {
    MortyDefaultsView(freshId, now);
  }

  /** The backfilled fields of the view of `{ name: "Morty" }`. The same facts as
      `CreateMortyDefaults`, stated of `CreatedView` alone: without `Create` and its
      store in scope, the solver's work stays well inside its limit on every seed. */
  lemma MortyDefaultsView(id: string, now: string)
    ensures var v := CreatedView(map["name" := Str("Morty")], id, now);
      && v["status"] == Str("unknown") && v["gender"] == Str("unknown")
      && v["origin"] == EmptyReference && v["location"] == EmptyReference
      && v["episode"] == Arr([])
  {
  }

  /** Create keeps a truthy input even when it is an empty array or object, and
      replaces a falsy one even when it is present. */
  lemma CreateBackfillsByTruthiness(store: Store, freshId: string, now: string)
    requires freshId !in store
    ensures var v := Create(store, map["episode" := Arr([]), "name" := Str(""), "url" := Str("x")], freshId, now).view;
      && v["episode"] == Arr([]) && v["name"] == Str("Unknown") && v["url"] == Str("")
  {
  }

  /** With a shallow overlay, the object update returns is what a read right after
      the write would give. */
  lemma UpdateThenRead(store: Store, id: string, data: Record)
    requires id in store
    ensures var u := Update(store, id, data);
      GetById(u.after, id) == u.result
  {
  }

  /** The update example: setting status on a stored Rick keeps the name. */
  lemma UpdateRick(store: Store, id: string)
    requires id in store && store[id] == map["name" := Str("Rick"), "status" := Str("Alive")]
    ensures var v := Update(store, id, map["status" := Str("Dead")]).result.value;
      v["status"] == Str("Dead") && v["name"] == Str("Rick") && v["id"] == Str(id)
  {
  }

  /** After a delete, reading that id fails with not-found. */
  lemma DeleteThenRead(store: Store, id: string)
    requires id in store
    ensures var d := Delete(store, id);
      d.result == Success(Deleted(true)) && GetById(d.after, id) == Failure(NotFound(NotFoundMessage(id)))
  {
  }
}
