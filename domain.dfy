/** The host platform's entities, reduced to the properties the plugin reads or writes.
    Instants (`DateTime` in UTC) are integers. */
module Domain {
  import opened Wrappers

  datatype Order = Order(id: int)

  datatype Product = Product(id: int)

  datatype ShipmentItem = ShipmentItem(
    id: int,
    shipmentId: int,
    orderItemId: int,
    productId: int,
    quantity: int,
    warehouseId: int)

  datatype Shipment = Shipment(
    id: int,
    orderId: int,
    order: Option<Order>,
    trackingNumber: string,
    totalWeight: Option<real>,
    shippedDateUtc: Option<int>,
    deliveryDateUtc: Option<int>,
    adminComment: string,
    createdOnUtc: int,
    shipmentItems: seq<ShipmentItem>)

  /** Ascending by `Id`, as `OrderBy(shipment => shipment.Id)` leaves a sequence. */
  predicate SortedById(s: seq<Shipment>) {
    forall i, j :: 0 <= i < j < |s| ==> s[i].id <= s[j].id
  }

  /** A shipment as `new Shipment()` leaves it, with `CreatedOnUtc` set to the given instant. */
  function NewShipment(now: int): (s: Shipment)
    ensures s.id == 0 && s.order == None && s.shipmentItems == [] && s.createdOnUtc == now
  {
    Shipment(0, 0, None, "", None, None, None, "", now, [])
  }
}
