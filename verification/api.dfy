/**
 * The in-memory item database behind the REST API: a map from id to item,
 * shared behind a lock in the source and modelled here as one object whose
 * map the operations read and replace.
 */
module Api {
  import opened Wrappers
  import Maps

  /** Item ids are version-4 UUIDs; only their identity matters here. */
  type Uuid = nat

  datatype Item = Item(id: Uuid, name: string)

  const NotFound: string := "Item not found"

  /** Every item is stored under its own id. */
  predicate KeysMatchIds(items: map<Uuid, Item>)
  {
    forall k :: k in items ==> items[k].id == k
  }

  class Database {
    var items: map<Uuid, Item>

    /** The database holds one item named "Initial Item".  The source draws
        the map key and the item's id from two separate UUID generations,
        supplied here as `key` and `itemId`; when they differ the item is not
        stored under its own id. */
    constructor (key: Uuid, itemId: Uuid)
      ensures items == map[key := Item(itemId, "Initial Item")]
    {
      items := map[key := Item(itemId, "Initial Item")];
    }

    /** Every stored item, one per key, in the map's own order. */
    method GetItems() returns (all: seq<Item>, ghost keys: seq<Uuid>)
      ensures Maps.Enumerates(items, keys)
      ensures |all| == |keys| == |items|
      ensures forall i :: 0 <= i < |keys| ==> all[i] == items[keys[i]]
    {
      all, keys := Maps.CollectValues(items);
    }

    /** The item stored under `id`, or `None` when the key is absent. */
    method GetItem(id: Uuid) returns (r: Option<Item>)
      ensures r.Some? <==> id in items
      ensures r.Some? ==> r.value == items[id]
    {
      if id in items {
        r := Some(items[id]);
      } else {
        r := None;
      }
    }

    /** Stores `item` under its own id, replacing any earlier entry. */
    method AddItem(item: Item)
      modifies this
      ensures items == old(items)[item.id := item]
      ensures forall k :: k != item.id ==> (k in items <==> k in old(items))
      ensures forall k :: k != item.id && k in items ==> items[k] == old(items)[k]
      ensures KeysMatchIds(old(items)) ==> KeysMatchIds(items)
    {
      items := items[item.id := item];
    }

    /** Renames the item stored under `id`; `Err("Item not found")` and no
        change when the key is absent. */
    method UpdateItem(id: Uuid, name: string) returns (r: Result<(), string>)
      modifies this
      ensures r.Err? <==> id !in old(items)
      ensures r.Err? ==> r.error == NotFound && items == old(items)
      ensures r.Ok? ==> items == old(items)[id := old(items)[id].(name := name)]
      ensures items.Keys == old(items).Keys
      ensures KeysMatchIds(old(items)) ==> KeysMatchIds(items)
    {
      if id in items {
        items := items[id := items[id].(name := name)];
        r := Ok(());
      } else {
        r := Err(NotFound);
      }
    }

    /** Removes the item stored under `id`; `Err("Item not found")` and no
        change when the key is absent. */
    method DeleteItem(id: Uuid) returns (r: Result<(), string>)
      modifies this
      ensures r.Err? <==> id !in old(items)
      ensures r.Err? ==> r.error == NotFound && items == old(items)
      ensures items == old(items) - {id}
      ensures KeysMatchIds(old(items)) ==> KeysMatchIds(items)
    {
      if id in items {
        items := items - {id};
        r := Ok(());
      } else {
        r := Err(NotFound);
      }
    }
  }

  /** The database as created keeps its item under the item's own id exactly
      when the two UUIDs coincide, so "key equals id" is not an invariant of
      the store from the start, only one that the operations preserve. */
  lemma InitialItemFiling(key: Uuid, itemId: Uuid)
    ensures KeysMatchIds(map[key := Item(itemId, "Initial Item")]) <==> key == itemId
  {
    var m := map[key := Item(itemId, "Initial Item")];
    assert m[key].id == itemId;
  }
}
