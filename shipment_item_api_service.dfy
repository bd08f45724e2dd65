/** `ShipmentItemApiService`: paging and counting over one shipment's own item collection. */
module ShipmentItemApiService {
  import opened Domain
  import opened DataStructures

  /** `GetShipmentItemsForShipment`: the `page`-th (1-based) window of at most `limit` items,
      taken from the shipment's collection in its own order; `sinceId` is accepted and unused. */
  function GetShipmentItemsForShipment(shipment: Shipment, limit: int, page: int, sinceId: int): (r: seq<ShipmentItem>)
    ensures |r| <= Max0(limit)
    ensures forall x :: x in r ==> x in shipment.shipmentItems
    ensures var items := shipment.shipmentItems;
            var start := PageStart((page - 1) * limit, |items|);
            |r| == Min(Max0(limit), |items| - start)
            && forall i :: 0 <= i < |r| ==> start + i < |items| && r[i] == items[start + i]
  {
    var r := ApiList(shipment.shipmentItems, page - 1, limit);
    assert forall i :: 0 <= i < |r| ==> r[i] in shipment.shipmentItems;
    r
  }

  /** `GetShipmentItemsCount`: the size of the whole collection, whatever the paging. */
  function GetShipmentItemsCount(shipment: Shipment): (n: nat)
    ensures n == |shipment.shipmentItems|
  {
    |shipment.shipmentItems|
  }

  /** The `sinceId` argument never changes the page. */
  lemma SinceIdIgnored(shipment: Shipment, limit: int, page: int, sinceId: int, otherSinceId: int)
    ensures GetShipmentItemsForShipment(shipment, limit, page, sinceId)
         == GetShipmentItemsForShipment(shipment, limit, page, otherSinceId)
  {
  }

  /** Pages `1..k` of a positive `limit` together list every item, in collection order,
      once `k` pages are enough to reach the count. */
  lemma {:induction false} PagesListEveryItem(shipment: Shipment, k: nat, limit: int)
    requires limit >= 1 && k * limit >= GetShipmentItemsCount(shipment)
    ensures Pages(shipment.shipmentItems, k, limit) == shipment.shipmentItems
  {
    PagesCoverSource(shipment.shipmentItems, k, limit);
  }

  /** A page past the last item is empty rather than an error or a repeat. */
  lemma PagePastCountIsEmpty(shipment: Shipment, limit: int, page: int)
    requires (page - 1) * limit >= GetShipmentItemsCount(shipment)
    ensures GetShipmentItemsForShipment(shipment, limit, page, 0) == []
  {
  }
}
