/** `Delta<T>.Merge`: a sparse payload (only the properties the client sent) applied
    onto an entity. Its body is not part of this model; it is taken to overwrite
    exactly the properties present in the payload and nothing else. */
module Delta {
  import opened Wrappers
  import opened Domain

  // ---------------------------------------------------------------- shipments

  /** The scalar properties of `ShipmentDto` a payload can carry. */
  datatype ShipmentField =
    | IdField | OrderIdField | TrackingNumberField | TotalWeightField
    | ShippedDateUtcField | DeliveryDateUtcField | AdminCommentField | CreatedOnUtcField

  /** A decoded JSON value. */
  datatype Value =
    | IntValue(n: int)
    | TextValue(text: string)
    | InstantValue(at: Option<int>)
    | DecimalValue(amount: Option<real>)

  /** A payload: the properties present in the request body, with their values. */
  type ShipmentDelta = map<ShipmentField, Value>

  /** Reading one property of a shipment. */
  function ShipmentFieldValue(s: Shipment, f: ShipmentField): Value {
    match f
    case IdField => IntValue(s.id)
    case OrderIdField => IntValue(s.orderId)
    case TrackingNumberField => TextValue(s.trackingNumber)
    case TotalWeightField => DecimalValue(s.totalWeight)
    case ShippedDateUtcField => InstantValue(s.shippedDateUtc)
    case DeliveryDateUtcField => InstantValue(s.deliveryDateUtc)
    case AdminCommentField => TextValue(s.adminComment)
    case CreatedOnUtcField => IntValue(s.createdOnUtc)
  }

  /** Whether a value has the type of the property; the JSON binder only produces such values. */
  predicate Fits(f: ShipmentField, v: Value) {
    match f
    case IdField | OrderIdField | CreatedOnUtcField => v.IntValue?
    case TrackingNumberField | AdminCommentField => v.TextValue?
    case TotalWeightField => v.DecimalValue?
    case ShippedDateUtcField | DeliveryDateUtcField => v.InstantValue?
  }

  /** Two shipments that agree on every scalar property, the order and the items are equal. */
  lemma {:induction false} ShipmentExtensionality(a: Shipment, b: Shipment)
    requires forall f :: ShipmentFieldValue(a, f) == ShipmentFieldValue(b, f)
    requires a.order == b.order && a.shipmentItems == b.shipmentItems
    ensures a == b
  {
    assert ShipmentFieldValue(a, IdField) == ShipmentFieldValue(b, IdField);
    assert ShipmentFieldValue(a, OrderIdField) == ShipmentFieldValue(b, OrderIdField);
    assert ShipmentFieldValue(a, TrackingNumberField) == ShipmentFieldValue(b, TrackingNumberField);
    assert ShipmentFieldValue(a, TotalWeightField) == ShipmentFieldValue(b, TotalWeightField);
    assert ShipmentFieldValue(a, ShippedDateUtcField) == ShipmentFieldValue(b, ShippedDateUtcField);
    assert ShipmentFieldValue(a, DeliveryDateUtcField) == ShipmentFieldValue(b, DeliveryDateUtcField);
    assert ShipmentFieldValue(a, AdminCommentField) == ShipmentFieldValue(b, AdminCommentField);
    assert ShipmentFieldValue(a, CreatedOnUtcField) == ShipmentFieldValue(b, CreatedOnUtcField);
  }

  function IntOr(d: ShipmentDelta, f: ShipmentField, current: int): int {
    if f in d && d[f].IntValue? then d[f].n else current
  }

  function TextOr(d: ShipmentDelta, f: ShipmentField, current: string): string {
    if f in d && d[f].TextValue? then d[f].text else current
  }

  function InstantOr(d: ShipmentDelta, f: ShipmentField, current: Option<int>): Option<int> {
    if f in d && d[f].InstantValue? then d[f].at else current
  }

  function DecimalOr(d: ShipmentDelta, f: ShipmentField, current: Option<real>): Option<real> {
    if f in d && d[f].DecimalValue? then d[f].amount else current
  }

  /** `shipmentDelta.Merge(shipment)`: every property present in the payload takes the
      payload's value, every other property keeps its value; the order and the item
      collection are not scalar properties and are left alone. */
  function MergeShipment(d: ShipmentDelta, s: Shipment): (r: Shipment)
    ensures forall f ::
              ShipmentFieldValue(r, f) == if f in d && Fits(f, d[f]) then d[f] else ShipmentFieldValue(s, f)
    ensures r.order == s.order && r.shipmentItems == s.shipmentItems
  {
    s.(id := IntOr(d, IdField, s.id),
       orderId := IntOr(d, OrderIdField, s.orderId),
       trackingNumber := TextOr(d, TrackingNumberField, s.trackingNumber),
       totalWeight := DecimalOr(d, TotalWeightField, s.totalWeight),
       shippedDateUtc := InstantOr(d, ShippedDateUtcField, s.shippedDateUtc),
       deliveryDateUtc := InstantOr(d, DeliveryDateUtcField, s.deliveryDateUtc),
       adminComment := TextOr(d, AdminCommentField, s.adminComment),
       createdOnUtc := IntOr(d, CreatedOnUtcField, s.createdOnUtc))
  }

  /** An empty payload is a no-op. */
  lemma MergeShipmentEmpty(s: Shipment)
    ensures MergeShipment(map[], s) == s
  {
    ShipmentExtensionality(MergeShipment(map[], s), s);
  }

  /** Merging the same payload twice is merging it once. */
  lemma MergeShipmentIdempotent(d: ShipmentDelta, s: Shipment)
    ensures MergeShipment(d, MergeShipment(d, s)) == MergeShipment(d, s)
  {
    ShipmentExtensionality(MergeShipment(d, MergeShipment(d, s)), MergeShipment(d, s));
  }

  /** Create and update share the merge: the result depends on the target only through
      the properties the payload does not carry. */
  lemma MergeShipmentKeepsAbsent(d: ShipmentDelta, s: Shipment, t: Shipment)
    requires forall f :: !(f in d && Fits(f, d[f])) ==> ShipmentFieldValue(s, f) == ShipmentFieldValue(t, f)
    requires s.order == t.order && s.shipmentItems == t.shipmentItems
    ensures MergeShipment(d, s) == MergeShipment(d, t)
  {
    ShipmentExtensionality(MergeShipment(d, s), MergeShipment(d, t));
  }

  /** `Dto.Id` / `Dto.OrderId`: a property absent from the payload reads as `int`'s default, 0. */
  function DtoInt(d: ShipmentDelta, f: ShipmentField): (n: int)
    ensures f !in d ==> n == 0
    ensures f in d && d[f].IntValue? ==> n == d[f].n
  {
    IntOr(d, f, 0)
  }

  // ----------------------------------------------------------- shipment items

  /** The properties of a shipment item a payload can carry. */
  datatype ShipmentItemField =
    | ItemIdField | ShipmentIdField | OrderItemIdField | ProductIdField | QuantityField | WarehouseIdField

  /** Every property of a shipment item is an integer. */
  type ShipmentItemDelta = map<ShipmentItemField, int>

  function ItemFieldValue(i: ShipmentItem, f: ShipmentItemField): int {
    match f
    case ItemIdField => i.id
    case ShipmentIdField => i.shipmentId
    case OrderItemIdField => i.orderItemId
    case ProductIdField => i.productId
    case QuantityField => i.quantity
    case WarehouseIdField => i.warehouseId
  }

  lemma {:induction false} ItemExtensionality(a: ShipmentItem, b: ShipmentItem)
    requires forall f :: ItemFieldValue(a, f) == ItemFieldValue(b, f)
    ensures a == b
  {
    assert ItemFieldValue(a, ItemIdField) == ItemFieldValue(b, ItemIdField);
    assert ItemFieldValue(a, ShipmentIdField) == ItemFieldValue(b, ShipmentIdField);
    assert ItemFieldValue(a, OrderItemIdField) == ItemFieldValue(b, OrderItemIdField);
    assert ItemFieldValue(a, ProductIdField) == ItemFieldValue(b, ProductIdField);
    assert ItemFieldValue(a, QuantityField) == ItemFieldValue(b, QuantityField);
    assert ItemFieldValue(a, WarehouseIdField) == ItemFieldValue(b, WarehouseIdField);
  }

  function ItemIntOr(d: ShipmentItemDelta, f: ShipmentItemField, current: int): int {
    if f in d then d[f] else current
  }

  /** `shipmentItemDelta.Merge(item)`: exactly the properties present are overwritten. */
  function MergeShipmentItem(d: ShipmentItemDelta, i: ShipmentItem): (r: ShipmentItem)
    ensures forall f :: ItemFieldValue(r, f) == if f in d then d[f] else ItemFieldValue(i, f)
  {
    ShipmentItem(
      ItemIntOr(d, ItemIdField, i.id),
      ItemIntOr(d, ShipmentIdField, i.shipmentId),
      ItemIntOr(d, OrderItemIdField, i.orderItemId),
      ItemIntOr(d, ProductIdField, i.productId),
      ItemIntOr(d, QuantityField, i.quantity),
      ItemIntOr(d, WarehouseIdField, i.warehouseId))
  }

  lemma MergeShipmentItemEmpty(i: ShipmentItem)
    ensures MergeShipmentItem(map[], i) == i
  {
    ItemExtensionality(MergeShipmentItem(map[], i), i);
  }

  lemma MergeShipmentItemIdempotent(d: ShipmentItemDelta, i: ShipmentItem)
    ensures MergeShipmentItem(d, MergeShipmentItem(d, i)) == MergeShipmentItem(d, i)
  {
    ItemExtensionality(MergeShipmentItem(d, MergeShipmentItem(d, i)), MergeShipmentItem(d, i));
  }

  /** `Dto.ProductId` is an `int?`: null when the payload does not carry it. */
  function DtoProductId(d: ShipmentItemDelta): (r: Option<int>)
    ensures r.Some? <==> ProductIdField in d
    ensures r.Some? ==> r.value == d[ProductIdField]
  {
    if ProductIdField in d then Some(d[ProductIdField]) else None
  }
}
