/** `ShipmentsController`: the request guards of the shipment endpoints, the merge of a
    payload onto a new or a loaded shipment, and the deletion of a shipment. */
module ShipmentsController {
  import opened Wrappers
  import opened Domain
  import opened Linq
  import opened Configurations
  import opened DataStructures
  import opened Delta
  import opened Store
  import Service = ShipmentApiService

  /** The query-string model of `GET /api/shipments`. */
  datatype ShipmentsParameters = ShipmentsParameters(
    ids: Option<seq<int>>,
    createdAtMin: Option<int>,
    createdAtMax: Option<int>,
    limit: int,
    page: int,
    sinceId: int,
    orderId: Option<int>)

  /** The query-string model of `GET /api/shipments/count`. */
  datatype ShipmentsCountParameters = ShipmentsCountParameters(
    createdAtMin: Option<int>,
    createdAtMax: Option<int>,
    orderId: Option<int>)

  /** No two rows share an id, as the table's primary key guarantees. */
  predicate UniqueIds(table: seq<Shipment>) {
    forall i, j :: 0 <= i < j < |table| ==> table[i].id != table[j].id
  }

  /** `GetShipments`: the page is checked before the limit, and a bad limit is reported
      under the key "page" too; only the message tells the two apart. */
  function GetShipments(cfg: Config, table: seq<Shipment>, p: ShipmentsParameters, storeId: Option<int>)
    : (r: Response<seq<Shipment>>)
    ensures p.page < cfg.DefaultPageValue ==> r == BadRequest("page", "Invalid page parameter")
    ensures p.page >= cfg.DefaultPageValue && !cfg.LimitInRange(p.limit) ==>
              r == BadRequest("page", "Invalid limit parameter")
    ensures r.Ok? <==> p.page >= cfg.DefaultPageValue && cfg.LimitInRange(p.limit)
    ensures r.Ok? ==> SortedById(r.value) && |r.value| <= Max0(cfg.MaxLimit)
    ensures r.Ok? ==> forall x :: x in r.value ==>
              x in table && Service.QueryMatches(p.createdAtMin, p.createdAtMax, p.ids, p.orderId, x)
              && Service.SinceIdMatches(p.sinceId, x)
    ensures r.Ok? ==>
              r.value == Service.GetShipments(table, p.ids, p.createdAtMin, p.createdAtMax, p.limit, p.page, p.sinceId, p.orderId, storeId)
  {
    if p.page < cfg.DefaultPageValue then BadRequest("page", "Invalid page parameter")
    else if p.limit < cfg.MinLimit || p.limit > cfg.MaxLimit then BadRequest("page", "Invalid limit parameter")
    else
      Ok(Service.GetShipments(table, p.ids, p.createdAtMin, p.createdAtMax, p.limit, p.page, p.sinceId, p.orderId, storeId))
  }

  /** With the plugin's constants (`Valid`), the first page at the largest limit is accepted. */
  lemma FirstPageAtMaxLimitAccepted(cfg: Config, table: seq<Shipment>, p: ShipmentsParameters, storeId: Option<int>)
    requires cfg.Valid() && p.page == 1 && p.limit == cfg.MaxLimit
    ensures GetShipments(cfg, table, p, storeId).Ok?
  {
  }

  /** `GetShipmentsCount`: no page or limit validation; always the count of the rows
      passing the order and creation-date filters. */
  function GetShipmentsCount(table: seq<Shipment>, p: ShipmentsCountParameters, storeId: Option<int>): (r: Response<nat>)
    ensures r.Ok?
    ensures r.value == |Where(table, (x: Shipment) =>
                          Service.OrderIdMatches(p.orderId, x) && Service.CreatedWithin(p.createdAtMin, p.createdAtMax, x))|
  {
    Ok(Service.GetShipmentsCount(table, p.createdAtMin, p.createdAtMax, p.orderId, storeId))
  }

  /** `GetShipmentById`: a non-positive id is a bad request; a positive id is answered
      with the first row carrying it, or "shipment" not found. */
  function GetShipmentById(table: seq<Shipment>, id: int): (r: Response<Shipment>)
    ensures id <= 0 ==> r == BadRequest("id", "invalid id")
    ensures id > 0 ==> (r == NotFound("shipment") <==> forall k :: 0 <= k < |table| ==> table[k].id != id)
    ensures id > 0 ==> r.NotFound? || r.Ok?
    ensures r.Ok? ==> r.value in table && r.value.id == id
    ensures r.Ok? <==> Service.GetShipmentById(table, id).Some?
    ensures r.Ok? ==> r == Ok(Service.GetShipmentById(table, id).value)
  {
    if id <= 0 then BadRequest("id", "invalid id")
    else match Service.GetShipmentById(table, id)
      case None => NotFound("shipment")
      case Some(s) => Ok(s)
  }

  /** `GetShipmentsByOrderId`: no validation; the order's shipments, at most `MaxLimit`. */
  function GetShipmentsByOrderId(cfg: Config, table: seq<Shipment>, orderId: int): (r: Response<seq<Shipment>>)
    ensures r.Ok? && SortedById(r.value) && |r.value| <= Max0(cfg.MaxLimit)
    ensures forall x :: x in r.value ==> x in table && x.orderId == orderId
    ensures r == Ok(Service.GetShipmentsByOrderId(table, orderId, cfg.MaxLimit))
  {
    Ok(Service.GetShipmentsByOrderId(table, orderId, cfg.MaxLimit))
  }

  /** `CreateShipment`: model-state errors first, then the order named by `OrderId` must
      exist; the payload is merged onto a freshly initialised shipment whose `Order` is
      then overwritten with the looked-up order. Nothing is persisted. */
  function CreateShipment(orders: map<int, Order>, valid: bool, d: ShipmentDelta, now: int): (r: Response<Shipment>)
    ensures !valid ==> r == ValidationError
    ensures valid ==> (r == NotFound("order") <==> DtoInt(d, OrderIdField) !in orders)
    ensures valid && DtoInt(d, OrderIdField) in orders ==> r.Ok?
    ensures r.Ok? ==> r.value.orderId in orders && r.value.order == Some(orders[r.value.orderId])
    ensures r.Ok? ==> r.value.shipmentItems == []
    ensures r.Ok? ==> forall f ::
              ShipmentFieldValue(r.value, f) == if f in d && Fits(f, d[f]) then d[f] else ShipmentFieldValue(NewShipment(now), f)
  {
    if !valid then ValidationError
    else
      var orderId := DtoInt(d, OrderIdField);
      if orderId !in orders then NotFound("order")
      else
        var merged := MergeShipment(d, NewShipment(now));
        assert merged.orderId == orderId;
        Ok(merged.(order := Some(orders[orderId])))
  }

  /** The answer and the table `DeleteShipment` leaves. */
  function DeleteShipmentOutcome(table: seq<Shipment>, id: int): (o: Outcome<()>)
    ensures id <= 0 ==> o == Outcome(BadRequest("id", "invalid id"), table)
    ensures id > 0 && (forall k :: 0 <= k < |table| ==> table[k].id != id) ==> o == Outcome(NotFound("shipment"), table)
    ensures o.response.Ok? <==> id > 0 && exists k :: 0 <= k < |table| && table[k].id == id
    ensures o.response.Ok? ==>
              |o.shipments| == |table| - 1
              && multiset(o.shipments) == multiset(table) - multiset{Service.GetShipmentById(table, id).value}
    ensures o.response.Ok? ==> o.shipments == RemoveAt(table, Service.IndexOfShipment(table, id).value)
  {
    if id <= 0 then Outcome(BadRequest("id", "invalid id"), table)
    else match Service.IndexOfShipment(table, id)
      case None => Outcome(NotFound("shipment"), table)
      case Some(k) => Outcome(Ok(()), RemoveAt(table, k))
  }

  /** With unique ids, removing row `k` removes the only row with its id and keeps every other row. */
  lemma RemoveAtDropsId(table: seq<Shipment>, k: nat)
    requires UniqueIds(table) && k < |table|
    ensures forall j :: 0 <= j < |RemoveAt(table, k)| ==> RemoveAt(table, k)[j].id != table[k].id
    ensures forall x :: x in table && x.id != table[k].id ==> x in RemoveAt(table, k)
  {
    var r := RemoveAt(table, k);
    forall j | 0 <= j < |r| ensures r[j].id != table[k].id {
      if j < k { assert r[j] == table[j]; } else { assert r[j] == table[j + 1]; }
    }
    forall x | x in table && x.id != table[k].id ensures x in r {
      var i :| 0 <= i < |table| && table[i] == x;
      if i < k { assert r[i] == x; } else { assert r[i - 1] == x; }
    }
  }

  /** With unique ids, a deleted shipment can no longer be found, and every other row is kept. */
  lemma {:induction false} DeletedShipmentIsGone(table: seq<Shipment>, id: int)
    requires UniqueIds(table)
    ensures var o := DeleteShipmentOutcome(table, id);
            o.response.Ok? ==>
              Service.GetShipmentById(o.shipments, id).None?
              && forall x :: x in table && x.id != id ==> x in o.shipments
  {
    var o := DeleteShipmentOutcome(table, id);
    if o.response.Ok? {
      var k := Service.IndexOfShipment(table, id).value;
      RemoveAtDropsId(table, k);
    }
  }

  /** `DeleteShipment`: the `GetShipmentById` guards, then the row found is removed. */
  method DeleteShipment(store: ShipmentStore, id: int) returns (r: Response<()>)
    modifies store
    ensures var o := DeleteShipmentOutcome(old(store.shipments), id);
            r == o.response && store.shipments == o.shipments
    ensures store.orders == old(store.orders) && store.products == old(store.products)
  {
    if id <= 0 {
      return BadRequest("id", "invalid id");
    }
    var k := Service.IndexOfShipment(store.shipments, id);
    if k.None? {
      return NotFound("shipment");
    }
    store.RemoveShipment(k.value);
    return Ok(());
  }

  /** The answer and the table `UpdateShipment` leaves: the shipment is found by the
      payload's `Id` (0 when absent), a miss is reported under the key "order", and the
      payload is merged onto the loaded shipment, which is stored back in its row. */
  function UpdateShipmentOutcome(table: seq<Shipment>, valid: bool, d: ShipmentDelta): (o: Outcome<Shipment>)
    ensures !valid ==> o == Outcome(ValidationError, table)
    ensures valid ==> (o.response == NotFound("order") <==> Service.GetShipmentById(table, DtoInt(d, IdField)).None?)
    ensures o.response.Ok? <==> valid && Service.GetShipmentById(table, DtoInt(d, IdField)).Some?
    ensures !o.response.Ok? ==> o.shipments == table
    ensures o.response.Ok? ==>
              var k := Service.IndexOfShipment(table, DtoInt(d, IdField)).value;
              k < |table| && o.shipments == table[k := o.response.value]
              && o.response.value == MergeShipment(d, table[k])
  {
    if !valid then Outcome(ValidationError, table)
    else
      var id := DtoInt(d, IdField);
      if id <= 0 then Outcome(NotFound("order"), table)
      else match Service.IndexOfShipment(table, id)
        case None => Outcome(NotFound("order"), table)
        case Some(k) =>
          var merged := MergeShipment(d, table[k]);
          Outcome(Ok(merged), table[k := merged])
  }

  /** After an update, looking the shipment up by the same id reads back the merged
      shipment; its `Order` and items are the loaded ones, and no other row changes. */
  lemma {:induction false} UpdatedShipmentReadsBack(table: seq<Shipment>, d: ShipmentDelta)
    ensures var o := UpdateShipmentOutcome(table, true, d);
            var id := DtoInt(d, IdField);
            o.response.Ok? ==>
              Service.GetShipmentById(o.shipments, id) == Some(o.response.value)
              && o.response.value.order == Service.GetShipmentById(table, id).value.order
              && o.response.value.shipmentItems == Service.GetShipmentById(table, id).value.shipmentItems
              && |o.shipments| == |table|
              && forall j :: 0 <= j < |table| && table[j].id != id ==> o.shipments[j] == table[j]
  {
    var o := UpdateShipmentOutcome(table, true, d);
    var id := DtoInt(d, IdField);
    if o.response.Ok? {
      var k := Service.IndexOfShipment(table, id).value;
      assert id > 0;
      assert ShipmentFieldValue(o.response.value, IdField) == IntValue(id);
      assert o.shipments[k].id == id;
      assert forall j :: 0 <= j < k ==> o.shipments[j] == table[j];
    }
  }

  /** `UpdateShipment`, persisting the merged shipment in its row. */
  method UpdateShipment(store: ShipmentStore, valid: bool, d: ShipmentDelta) returns (r: Response<Shipment>)
    modifies store
    ensures var o := UpdateShipmentOutcome(old(store.shipments), valid, d);
            r == o.response && store.shipments == o.shipments
    ensures store.orders == old(store.orders) && store.products == old(store.products)
  {
    if !valid {
      return ValidationError;
    }
    var id := DtoInt(d, IdField);
    if id <= 0 {
      return NotFound("order");
    }
    var k := Service.IndexOfShipment(store.shipments, id);
    if k.None? {
      return NotFound("order");
    }
    var merged := MergeShipment(d, store.shipments[k.value]);
    store.ReplaceShipment(k.value, merged);
    return Ok(merged);
  }
}
