/** `ShipmentItemsController`: the request guards of the shipment-item endpoints, the
    creation of an item from a product, the partial update that protects `ProductId`, and
    the deletion of every item of a shipment. */
module ShipmentItemsController {
  import opened Wrappers
  import opened Domain
  import opened Configurations
  import opened DataStructures
  import opened Delta
  import opened Store
  import Service = ShipmentApiService
  import ItemService = ShipmentItemApiService

  /** The query-string model of `GET /api/shipments/{shipmentId}/items`. */
  datatype ShipmentItemsParameters = ShipmentItemsParameters(limit: int, page: int, sinceId: int)

  /** `GetShipmentItems`: the limit is checked first, then the page, then the shipment;
      an accepted request answers a window of that shipment's own items. */
  function GetShipmentItems(cfg: Config, table: seq<Shipment>, shipmentId: int, p: ShipmentItemsParameters)
    : (r: Response<seq<ShipmentItem>>)
    ensures !cfg.LimitInRange(p.limit) ==> r == BadRequest("limit", "Invalid limit parameter")
    ensures cfg.LimitInRange(p.limit) && p.page < cfg.DefaultPageValue ==>
              r == BadRequest("page", "Invalid request parameters")
    ensures cfg.LimitInRange(p.limit) && p.page >= cfg.DefaultPageValue ==>
              (r == NotFound("shipment") <==> Service.GetShipmentById(table, shipmentId).None?)
    ensures r.Ok? <==>
              cfg.LimitInRange(p.limit) && p.page >= cfg.DefaultPageValue && Service.GetShipmentById(table, shipmentId).Some?
    ensures r.Ok? ==>
              |r.value| <= Max0(cfg.MaxLimit)
              && forall x :: x in r.value ==> x in Service.GetShipmentById(table, shipmentId).value.shipmentItems
    ensures r.Ok? ==>
              r.value == ItemService.GetShipmentItemsForShipment(Service.GetShipmentById(table, shipmentId).value, p.limit, p.page, p.sinceId)
  {
    if p.limit < cfg.MinLimit || p.limit > cfg.MaxLimit then BadRequest("limit", "Invalid limit parameter")
    else if p.page < cfg.DefaultPageValue then BadRequest("page", "Invalid request parameters")
    else match Service.GetShipmentById(table, shipmentId)
      case None => NotFound("shipment")
      case Some(shipment) => Ok(ItemService.GetShipmentItemsForShipment(shipment, p.limit, p.page, p.sinceId))
  }

  /** `GetShipmentItemsCount`: no paging guards; the shipment must exist. */
  function GetShipmentItemsCount(table: seq<Shipment>, shipmentId: int): (r: Response<nat>)
    ensures r == NotFound("shipment") <==> Service.GetShipmentById(table, shipmentId).None?
    ensures r.Ok? <==> Service.GetShipmentById(table, shipmentId).Some?
    ensures r.Ok? ==> r.value == |Service.GetShipmentById(table, shipmentId).value.shipmentItems|
  {
    match Service.GetShipmentById(table, shipmentId)
    case None => NotFound("shipment")
    case Some(shipment) => Ok(ItemService.GetShipmentItemsCount(shipment))
  }

  /** `GetProduct`: a null id gives no product; otherwise the catalogue's entry, if any. */
  function GetProduct(products: map<int, Product>, productId: Option<int>): (r: Option<Product>)
    ensures productId.None? ==> r.None?
    ensures productId.Some? ==> (r.Some? <==> productId.value in products)
    ensures r.Some? ==> productId.Some? && r.value == products[productId.value]
  {
    match productId
    case None => None
    case Some(id) => if id in products then Some(products[id]) else None
  }

  /** `PrepareDefaultShipmentItemFromProduct`, without its prices: quantity 1, for that
      product, in that shipment, not yet given an id. */
  function DefaultShipmentItem(shipment: Shipment, product: Product): (i: ShipmentItem)
    ensures i.quantity == 1 && i.productId == product.id && i.shipmentId == shipment.id && i.id == 0
  {
    ShipmentItem(0, shipment.id, 0, product.id, 1, 0)
  }

  /** The answer and the table `CreateShipmentItem` leaves: model-state errors, then the
      shipment, then the product named by the payload; the payload is merged onto the
      default item, and exactly that item is appended to the shipment's items. */
  function CreateShipmentItemOutcome(
    table: seq<Shipment>, products: map<int, Product>, valid: bool, shipmentId: int, d: ShipmentItemDelta)
    : (o: Outcome<ShipmentItem>)
    ensures !valid ==> o == Outcome(ValidationError, table)
    ensures valid ==> (o.response == NotFound("shipment") <==> Service.GetShipmentById(table, shipmentId).None?)
    ensures valid && Service.GetShipmentById(table, shipmentId).Some? ==>
              (o.response == NotFound("product") <==> GetProduct(products, DtoProductId(d)).None?)
    ensures o.response.Ok? <==>
              valid && Service.GetShipmentById(table, shipmentId).Some? && GetProduct(products, DtoProductId(d)).Some?
    ensures o.response.Ok? ==>
              var default := DefaultShipmentItem(Service.GetShipmentById(table, shipmentId).value, GetProduct(products, DtoProductId(d)).value);
              forall f :: ItemFieldValue(o.response.value, f) == if f in d then d[f] else ItemFieldValue(default, f)
    ensures !o.response.Ok? ==> o.shipments == table
    ensures o.response.Ok? ==>
              var k := Service.IndexOfShipment(table, shipmentId).value;
              var item := o.response.value;
              k < |table|
              && o.shipments == table[k := WithItems(table[k], table[k].shipmentItems + [item])]
              && item.quantity == ItemIntOr(d, QuantityField, 1)
              && item.shipmentId == ItemIntOr(d, ShipmentIdField, shipmentId)
              && DtoProductId(d) == Some(item.productId) && item.productId in products
              && forall f :: f in d ==> ItemFieldValue(item, f) == d[f]
  {
    if !valid then Outcome(ValidationError, table)
    else match Service.GetShipmentById(table, shipmentId)
      case None => Outcome(NotFound("shipment"), table)
      case Some(shipment) =>
        match GetProduct(products, DtoProductId(d))
        case None => Outcome(NotFound("product"), table)
        case Some(product) =>
          var item := MergeShipmentItem(d, DefaultShipmentItem(shipment, product));
          var k := Service.IndexOfShipment(table, shipmentId).value;
          Outcome(Ok(item), table[k := WithItems(table[k], table[k].shipmentItems + [item])])
  }

  /** After a create, reading the shipment back shows its old items followed by the new
      one, and it counts one item more. */
  lemma {:induction false} CreatedItemIsCounted(
    table: seq<Shipment>, products: map<int, Product>, shipmentId: int, d: ShipmentItemDelta)
    ensures var o := CreateShipmentItemOutcome(table, products, true, shipmentId, d);
            o.response.Ok? ==>
              var after := GetShipmentItemsCount(o.shipments, shipmentId);
              var before := GetShipmentItemsCount(table, shipmentId);
              var found := Service.GetShipmentById(o.shipments, shipmentId);
              before.Ok? && after == Ok(before.value + 1) && found.Some?
              && found.value.shipmentItems == Service.GetShipmentById(table, shipmentId).value.shipmentItems + [o.response.value]
  {
    var o := CreateShipmentItemOutcome(table, products, true, shipmentId, d);
    if o.response.Ok? {
      var k := Service.IndexOfShipment(table, shipmentId).value;
      assert o.shipments[k].id == shipmentId;
      assert forall j :: 0 <= j < k ==> o.shipments[j] == table[j];
      assert Service.IndexOfShipment(o.shipments, shipmentId) == Some(k);
    }
  }

  /** `CreateShipmentItem`, appending the new item to the shipment and persisting it. */
  method CreateShipmentItem(store: ShipmentStore, valid: bool, shipmentId: int, d: ShipmentItemDelta)
    returns (r: Response<ShipmentItem>)
    modifies store
    ensures var o := CreateShipmentItemOutcome(old(store.shipments), old(store.products), valid, shipmentId, d);
            r == o.response && store.shipments == o.shipments
    ensures store.orders == old(store.orders) && store.products == old(store.products)
  {
    if !valid {
      return ValidationError;
    }
    var shipment := Service.GetShipmentById(store.shipments, shipmentId);
    if shipment.None? {
      return NotFound("shipment");
    }
    var product := GetProduct(store.products, DtoProductId(d));
    if product.None? {
      return NotFound("product");
    }
    var item := MergeShipmentItem(d, DefaultShipmentItem(shipment.value, product.value));
    var k := Service.IndexOfShipment(store.shipments, shipmentId).value;
    store.AddShipmentItem(k, item);
    return Ok(item);
  }

  /** The item as `UpdateShipmentItem` leaves it: merged, with `ProductId` set back. */
  function UpdatedItem(d: ShipmentItemDelta, item: ShipmentItem): (r: ShipmentItem)
    ensures r.productId == item.productId
    ensures forall f :: f != ProductIdField ==> ItemFieldValue(r, f) == if f in d then d[f] else ItemFieldValue(item, f)
  {
    var productId := item.productId;
    MergeShipmentItem(d, item).(productId := productId)
  }

  /** Restoring `ProductId` after the merge is the same as merging a payload that never
      carried it. */
  lemma {:induction false} UpdatedItemIgnoresProductId(d: ShipmentItemDelta, item: ShipmentItem)
    ensures UpdatedItem(d, item) == MergeShipmentItem(d - {ProductIdField}, item)
  {
    var a, b := UpdatedItem(d, item), MergeShipmentItem(d - {ProductIdField}, item);
    assert ItemFieldValue(a, ProductIdField) == ItemFieldValue(b, ProductIdField);
    ItemExtensionality(a, b);
  }

  /** The answer and the table `UpdateShipmentItem` leaves: model-state errors, then the
      item (looked up by its own id, in any shipment), then the route's shipment; the
      updated item replaces the original where it sits. */
  function UpdateShipmentItemOutcome(table: seq<Shipment>, valid: bool, shipmentId: int, itemId: int, d: ShipmentItemDelta)
    : (o: Outcome<ShipmentItem>)
    ensures !valid ==> o == Outcome(ValidationError, table)
    ensures valid ==> (o.response == NotFound("shipment_item") <==> LocateItem(table, itemId).None?)
    ensures valid && LocateItem(table, itemId).Some? ==>
              (o.response == NotFound("shipment") <==> Service.GetShipmentById(table, shipmentId).None?)
    ensures o.response.Ok? <==>
              valid && LocateItem(table, itemId).Some? && Service.GetShipmentById(table, shipmentId).Some?
    ensures !o.response.Ok? ==> o.shipments == table
    ensures o.response.Ok? ==>
              var loc := LocateItem(table, itemId).value;
              var before := ItemAt(table, loc);
              ValidLocation(table, loc) && before.id == itemId
              && o.response.value.productId == before.productId
              && (forall f :: f != ProductIdField ==>
                    ItemFieldValue(o.response.value, f) == if f in d then d[f] else ItemFieldValue(before, f))
              && o.shipments == table[loc.row := WithItems(table[loc.row], table[loc.row].shipmentItems[loc.position := o.response.value])]
  {
    if !valid then Outcome(ValidationError, table)
    else match LocateItem(table, itemId)
      case None => Outcome(NotFound("shipment_item"), table)
      case Some(loc) =>
        if Service.GetShipmentById(table, shipmentId).None? then Outcome(NotFound("shipment"), table)
        else
          var item := UpdatedItem(d, ItemAt(table, loc));
          Outcome(Ok(item), table[loc.row := WithItems(table[loc.row], table[loc.row].shipmentItems[loc.position := item])])
  }

  /** `UpdateShipmentItem`, writing the updated item back in place. */
  method UpdateShipmentItem(store: ShipmentStore, valid: bool, shipmentId: int, itemId: int, d: ShipmentItemDelta)
    returns (r: Response<ShipmentItem>)
    modifies store
    ensures var o := UpdateShipmentItemOutcome(old(store.shipments), valid, shipmentId, itemId, d);
            r == o.response && store.shipments == o.shipments
    ensures store.orders == old(store.orders) && store.products == old(store.products)
  {
    if !valid {
      return ValidationError;
    }
    var loc := LocateItem(store.shipments, itemId);
    if loc.None? {
      return NotFound("shipment_item");
    }
    var shipment := Service.GetShipmentById(store.shipments, shipmentId);
    if shipment.None? {
      return NotFound("shipment");
    }
    var item := UpdatedItem(d, ItemAt(store.shipments, loc.value));
    store.ReplaceShipmentItem(loc.value, item);
    return Ok(item);
  }

  /** The answer and the table `DeleteAllShipmentItemsForShipment` leaves: the shipment
      must exist, and then its item collection ends up empty. */
  function DeleteAllOutcome(table: seq<Shipment>, shipmentId: int): (o: Outcome<()>)
    ensures o.response == NotFound("shipment") <==> Service.GetShipmentById(table, shipmentId).None?
    ensures o.response.Ok? <==> Service.GetShipmentById(table, shipmentId).Some?
    ensures !o.response.Ok? ==> o.shipments == table
    ensures o.response.Ok? ==>
              var k := Service.IndexOfShipment(table, shipmentId).value;
              k < |table| && o.shipments == table[k := WithItems(table[k], [])]
  {
    match Service.IndexOfShipment(table, shipmentId)
    case None => Outcome(NotFound("shipment"), table)
    case Some(k) =>
      if shipmentId <= 0 then Outcome(NotFound("shipment"), table)
      else Outcome(Ok(()), table[k := WithItems(table[k], [])])
  }

  /** After deleting all items, the shipment counts none, and nothing else changed. */
  lemma {:induction false} DeleteAllLeavesNoItems(table: seq<Shipment>, shipmentId: int)
    ensures var o := DeleteAllOutcome(table, shipmentId);
            o.response.Ok? ==>
              GetShipmentItemsCount(o.shipments, shipmentId) == Ok(0)
              && |o.shipments| == |table|
              && forall j :: 0 <= j < |table| && table[j].id != shipmentId ==> o.shipments[j] == table[j]
  {
    var o := DeleteAllOutcome(table, shipmentId);
    if o.response.Ok? {
      var k := Service.IndexOfShipment(table, shipmentId).value;
      assert o.shipments[k].id == shipmentId;
      assert forall j :: 0 <= j < k ==> o.shipments[j] == table[j];
      assert Service.IndexOfShipment(o.shipments, shipmentId) == Some(k);
    }
  }

  /** `DeleteAllShipmentItemsForShipment`: every item of a snapshot of the collection,
      taken before the loop, is deleted in turn. */
  method DeleteAllShipmentItemsForShipment(store: ShipmentStore, shipmentId: int) returns (r: Response<()>)
    modifies store
    ensures var o := DeleteAllOutcome(old(store.shipments), shipmentId);
            r == o.response && store.shipments == o.shipments
    ensures store.orders == old(store.orders) && store.products == old(store.products)
  {
    var shipment := Service.GetShipmentById(store.shipments, shipmentId);
    if shipment.None? {
      return NotFound("shipment");
    }
    var k := Service.IndexOfShipment(store.shipments, shipmentId).value;
    var snapshot := store.shipments[k].shipmentItems;
    var i := 0;
    while i < |snapshot|
      invariant 0 <= i <= |snapshot|
      invariant k < |store.shipments|
      invariant store.shipments == old(store.shipments)[k := WithItems(old(store.shipments)[k], snapshot[i..])]
      invariant store.orders == old(store.orders) && store.products == old(store.products)
    {
      store.DeleteShipmentItem(k, snapshot[i]);
      i := i + 1;
    }
    return Ok(());
  }
}
