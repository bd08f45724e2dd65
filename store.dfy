/** The persistent state the controllers read and change: the shipment table with each
    shipment's item collection, and the order and product catalogues they look up.
    Persistence calls (`UpdateShipment`, `DeleteShipment`, `DeleteShipmentItem` of the host's
    shipment service) become in-place updates of these fields. */
module Store {
  import opened Wrappers
  import opened Domain
  import opened Linq

  /** An endpoint's answer together with the shipment table it leaves behind. */
  datatype Outcome<+T> = Outcome(response: Response<T>, shipments: seq<Shipment>)

  /** Where an item sits: the shipment's row and the item's position in its collection. */
  datatype ItemLocation = ItemLocation(row: nat, position: nat)

  predicate ValidLocation(table: seq<Shipment>, loc: ItemLocation) {
    loc.row < |table| && loc.position < |table[loc.row].shipmentItems|
  }

  function ItemAt(table: seq<Shipment>, loc: ItemLocation): ShipmentItem
    requires ValidLocation(table, loc)
  {
    table[loc.row].shipmentItems[loc.position]
  }

  /** The host's `GetShipmentItemById`: the first item with that id, shipments scanned in
      table order and items in collection order; `None` exactly when no item has that id. */
  function LocateItem(table: seq<Shipment>, itemId: int): (r: Option<ItemLocation>)
    ensures r.Some? ==> ValidLocation(table, r.value) && ItemAt(table, r.value).id == itemId
    ensures r.Some? ==> forall j :: 0 <= j < r.value.position ==> table[r.value.row].shipmentItems[j].id != itemId
    ensures r.Some? ==> forall k, j :: 0 <= k < r.value.row && 0 <= j < |table[k].shipmentItems| ==>
                          table[k].shipmentItems[j].id != itemId
    ensures r.None? <==> forall k, j :: 0 <= k < |table| && 0 <= j < |table[k].shipmentItems| ==>
                           table[k].shipmentItems[j].id != itemId
  {
    if table == [] then None
    else match FirstIndex(table[0].shipmentItems, (i: ShipmentItem) => i.id == itemId)
      case Some(j) => Some(ItemLocation(0, j))
      case None =>
        match LocateItem(table[1..], itemId)
        case None => None
        case Some(loc) =>
          assert forall k :: 1 <= k < |table| ==> table[k] == table[1..][k - 1];
          Some(ItemLocation(loc.row + 1, loc.position))
  }

  /** The table without row `k`, every other row kept in order. */
  function RemoveAt(table: seq<Shipment>, k: nat): (r: seq<Shipment>)
    requires k < |table|
    ensures |r| == |table| - 1
    ensures forall j :: 0 <= j < k ==> r[j] == table[j]
    ensures forall j :: k <= j < |r| ==> r[j] == table[j + 1]
    ensures multiset(r) == multiset(table) - multiset{table[k]}
  {
    assert table == table[..k] + [table[k]] + table[k + 1..];
    table[..k] + table[k + 1..]
  }

  /** `items` without the first occurrence of `t`; unchanged when `t` is absent. */
  function RemoveFirst(items: seq<ShipmentItem>, t: ShipmentItem): (r: seq<ShipmentItem>)
    ensures t !in items ==> r == items
    ensures t in items ==> |r| == |items| - 1
    ensures multiset(r) == multiset(items) - multiset{t}
  {
    if items == [] then []
    else
      assert items == [items[0]] + items[1..];
      if items[0] == t then items[1..]
      else [items[0]] + RemoveFirst(items[1..], t)
  }

  /** `shipment` with `items` as its item collection. */
  function WithItems(shipment: Shipment, items: seq<ShipmentItem>): (r: Shipment)
    ensures r.shipmentItems == items
    ensures r.(shipmentItems := shipment.shipmentItems) == shipment
  {
    shipment.(shipmentItems := items)
  }

  class ShipmentStore {
    var shipments: seq<Shipment>
    var orders: map<int, Order>
    var products: map<int, Product>

    constructor (shipments0: seq<Shipment>, orders0: map<int, Order>, products0: map<int, Product>)
      ensures shipments == shipments0 && orders == orders0 && products == products0
    {
      shipments := shipments0;
      orders := orders0;
      products := products0;
    }

    /** Persists a changed shipment in its row. */
    method ReplaceShipment(k: nat, s: Shipment)
      requires k < |shipments|
      modifies this
      ensures shipments == old(shipments)[k := s]
      ensures orders == old(orders) && products == old(products)
    {
      shipments := shipments[k := s];
    }

    /** The host's `DeleteShipment`: the row disappears. */
    method RemoveShipment(k: nat)
      requires k < |shipments|
      modifies this
      ensures shipments == RemoveAt(old(shipments), k)
      ensures orders == old(orders) && products == old(products)
    {
      shipments := RemoveAt(shipments, k);
    }

    /** `shipment.ShipmentItems.Add(item)` followed by persisting the shipment. */
    method AddShipmentItem(k: nat, item: ShipmentItem)
      requires k < |shipments|
      modifies this
      ensures shipments == old(shipments)[k := WithItems(old(shipments)[k], old(shipments)[k].shipmentItems + [item])]
      ensures orders == old(orders) && products == old(products)
    {
      shipments := shipments[k := WithItems(shipments[k], shipments[k].shipmentItems + [item])];
    }

    /** An item changed in place, at its location. */
    method ReplaceShipmentItem(loc: ItemLocation, item: ShipmentItem)
      requires ValidLocation(shipments, loc)
      modifies this
      ensures shipments == old(shipments)[loc.row := WithItems(old(shipments)[loc.row],
                                                               old(shipments)[loc.row].shipmentItems[loc.position := item])]
      ensures orders == old(orders) && products == old(products)
    {
      var s := shipments[loc.row];
      shipments := shipments[loc.row := WithItems(s, s.shipmentItems[loc.position := item])];
    }

    /** The host's `DeleteShipmentItem`, for an item of the shipment in row `k`. */
    method DeleteShipmentItem(k: nat, t: ShipmentItem)
      requires k < |shipments|
      modifies this
      ensures shipments == old(shipments)[k := WithItems(old(shipments)[k], RemoveFirst(old(shipments)[k].shipmentItems, t))]
      ensures orders == old(orders) && products == old(products)
    {
      shipments := shipments[k := WithItems(shipments[k], RemoveFirst(shipments[k].shipmentItems, t))];
    }
  }
}
