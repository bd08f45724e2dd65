/** `ShipmentApiService`: the shipment queries, as pure functions over the shipment
    table (the repository's rows, in table order). */
module ShipmentApiService {
  import opened Wrappers
  import opened Domain
  import opened Linq
  import opened DataStructures

  // ------------------------------------------------------------- ordering

  /** Inserts `x` after every element whose id is not larger, so equal ids keep their
      original order. */
  function InsertById(s: seq<Shipment>, x: Shipment): (r: seq<Shipment>)
    requires SortedById(s)
    ensures SortedById(r)
    ensures multiset(r) == multiset(s) + multiset{x}
    ensures |r| == |s| + 1
    ensures r[|r| - 1] == if s == [] || s[|s| - 1].id <= x.id then x else s[|s| - 1]
  {
    if s == [] || s[|s| - 1].id <= x.id then s + [x]
    else
      var init, last := s[..|s| - 1], s[|s| - 1];
      assert s == init + [last];
      var front := InsertById(init, x);
      assert forall i :: 0 <= i < |front| ==> front[i].id <= front[|front| - 1].id <= last.id;
      front + [last]
  }

  /** `OrderBy(shipment => shipment.Id)`. */
  function SortById(s: seq<Shipment>): (r: seq<Shipment>)
    ensures SortedById(r)
    ensures multiset(r) == multiset(s)
    ensures |r| == |s|
  {
    if s == [] then []
    else
      assert s == s[..|s| - 1] + [s[|s| - 1]];
      InsertById(SortById(s[..|s| - 1]), s[|s| - 1])
  }

  /** Sorting an already sorted table changes nothing. */
  lemma {:induction false} SortSortedIsIdentity(s: seq<Shipment>)
    requires SortedById(s)
    ensures SortById(s) == s
  {
    if s != [] {
      var init := s[..|s| - 1];
      assert SortedById(init);
      SortSortedIsIdentity(init);
      assert s == init + [s[|s| - 1]];
    }
  }

  /** A filter keeps a sorted sequence sorted. */
  lemma {:induction false} WhereKeepsSorted(s: seq<Shipment>, p: Shipment -> bool)
    requires SortedById(s)
    ensures SortedById(Where(s, p))
  {
    if s != [] {
      var rest := Where(s[1..], p);
      WhereKeepsSorted(s[1..], p);
      if p(s[0]) {
        forall j | 0 <= j < |rest| ensures s[0].id <= rest[j].id {
          assert rest[j] in s[1..];
          var k :| 0 <= k < |s[1..]| && s[1..][k] == rest[j];
          assert s[k + 1] == rest[j];
        }
        ConsSorted(s[0], rest);
      }
    }
  }

  lemma ConsSorted(x: Shipment, rest: seq<Shipment>)
    requires SortedById(rest)
    requires forall j :: 0 <= j < |rest| ==> x.id <= rest[j].id
    ensures SortedById([x] + rest)
  {
    var r := [x] + rest;
    forall i, j | 0 <= i < j < |r| ensures r[i].id <= r[j].id {
      if i > 0 {
        assert r[i] == rest[i - 1] && r[j] == rest[j - 1];
      }
    }
  }

  // ------------------------------------------------------------- filters

  /** `orderId`: applied only when supplied. */
  predicate OrderIdMatches(orderId: Option<int>, s: Shipment) {
    orderId.None? || s.orderId == orderId.value
  }

  /** `ids`: a null or empty list imposes no restriction. */
  predicate IdsMatch(ids: Option<seq<int>>, s: Shipment) {
    ids.None? || |ids.value| == 0 || s.id in ids.value
  }

  /** `createdAtMin` and `createdAtMax` are exclusive bounds, each applied only when supplied. */
  predicate CreatedWithin(createdAtMin: Option<int>, createdAtMax: Option<int>, s: Shipment) {
    (createdAtMin.None? || s.createdOnUtc > createdAtMin.value)
    && (createdAtMax.None? || s.createdOnUtc < createdAtMax.value)
  }

  /** `sinceId`: applied only when positive, and then strict. */
  predicate SinceIdMatches(sinceId: int, s: Shipment) {
    sinceId <= 0 || s.id > sinceId
  }

  /** `if (orderId != null) query = query.Where(shipment => shipment.OrderId == orderId)`. */
  function FilterByOrderId(s: seq<Shipment>, orderId: Option<int>): (r: seq<Shipment>)
    ensures forall x :: multiset(r)[x] == if OrderIdMatches(orderId, x) then multiset(s)[x] else 0
  {
    if orderId.Some? then Where(s, (x: Shipment) => x.orderId == orderId.value) else s
  }

  /** `if (ids != null && ids.Count > 0) query = query.Where(c => ids.Contains(c.Id))`. */
  function FilterByIds(s: seq<Shipment>, ids: Option<seq<int>>): (r: seq<Shipment>)
    ensures forall x :: multiset(r)[x] == if IdsMatch(ids, x) then multiset(s)[x] else 0
  {
    if ids.Some? && |ids.value| > 0 then Where(s, (x: Shipment) => x.id in ids.value) else s
  }

  /** The two `CreatedOnUtc` bounds, minimum first. */
  function FilterByCreated(s: seq<Shipment>, createdAtMin: Option<int>, createdAtMax: Option<int>): (r: seq<Shipment>)
    ensures forall x :: multiset(r)[x] == if CreatedWithin(createdAtMin, createdAtMax, x) then multiset(s)[x] else 0
  {
    var afterMin := if createdAtMin.Some? then Where(s, (x: Shipment) => x.createdOnUtc > createdAtMin.value) else s;
    if createdAtMax.Some? then Where(afterMin, (x: Shipment) => x.createdOnUtc < createdAtMax.value) else afterMin
  }

  /** The conjunction of all filters of the query. */
  predicate QueryMatches(
    createdAtMin: Option<int>, createdAtMax: Option<int>, ids: Option<seq<int>>, orderId: Option<int>, s: Shipment)
  {
    OrderIdMatches(orderId, s) && IdsMatch(ids, s) && CreatedWithin(createdAtMin, createdAtMax, s)
  }

  /** `GetShipmentsQuery`: the rows matching every supplied filter, each with its
      multiplicity in the table, sorted ascending by id. `storeId` plays no part. */
  function GetShipmentsQuery(
    table: seq<Shipment>, createdAtMin: Option<int>, createdAtMax: Option<int>,
    ids: Option<seq<int>>, orderId: Option<int>, storeId: Option<int>): (q: seq<Shipment>)
    ensures SortedById(q)
    ensures forall x ::
              multiset(q)[x] == if QueryMatches(createdAtMin, createdAtMax, ids, orderId, x) then multiset(table)[x] else 0
    ensures forall x :: x in q <==> x in table && QueryMatches(createdAtMin, createdAtMax, ids, orderId, x)
  {
    SortById(FilterByCreated(FilterByIds(FilterByOrderId(table, orderId), ids), createdAtMin, createdAtMax))
  }

  /** The sequence `GetShipments` pages: the query, then `Id > sinceId` when `sinceId > 0`. */
  function GetShipmentsFiltered(
    table: seq<Shipment>, ids: Option<seq<int>>, createdAtMin: Option<int>, createdAtMax: Option<int>,
    sinceId: int, orderId: Option<int>, storeId: Option<int>): (f: seq<Shipment>)
    ensures SortedById(f)
    ensures forall x ::
              multiset(f)[x] ==
              if QueryMatches(createdAtMin, createdAtMax, ids, orderId, x) && SinceIdMatches(sinceId, x)
              then multiset(table)[x] else 0
    ensures forall x ::
              x in f <==> x in table && QueryMatches(createdAtMin, createdAtMax, ids, orderId, x) && SinceIdMatches(sinceId, x)
  {
    var query := GetShipmentsQuery(table, createdAtMin, createdAtMax, ids, orderId, storeId);
    if sinceId > 0 then
      WhereKeepsSorted(query, (x: Shipment) => x.id > sinceId);
      Where(query, (x: Shipment) => x.id > sinceId)
    else query
  }

  /** `GetShipments`: page `page` (1-based) of at most `limit` shipments, a contiguous
      window of the filtered, sorted sequence starting at `(page - 1) * limit`. */
  function GetShipments(
    table: seq<Shipment>, ids: Option<seq<int>>, createdAtMin: Option<int>, createdAtMax: Option<int>,
    limit: int, page: int, sinceId: int, orderId: Option<int>, storeId: Option<int>): (r: seq<Shipment>)
    ensures SortedById(r)
    ensures |r| <= Max0(limit)
    ensures forall x ::
              x in r ==> x in table && QueryMatches(createdAtMin, createdAtMax, ids, orderId, x) && SinceIdMatches(sinceId, x)
    ensures var f := GetShipmentsFiltered(table, ids, createdAtMin, createdAtMax, sinceId, orderId, storeId);
            var start := PageStart((page - 1) * limit, |f|);
            |r| == Min(Max0(limit), |f| - start)
            && forall i :: 0 <= i < |r| ==> start + i < |f| && r[i] == f[start + i]
  {
    ApiList(GetShipmentsFiltered(table, ids, createdAtMin, createdAtMax, sinceId, orderId, storeId), page - 1, limit)
  }

  /** "Since id" combined with an id list is the intersection of both filters. */
  lemma IdsAndSinceIdIntersect(
    table: seq<Shipment>, ids: seq<int>, createdAtMin: Option<int>, createdAtMax: Option<int>,
    sinceId: int, orderId: Option<int>, storeId: Option<int>, x: Shipment)
    ensures x in GetShipmentsFiltered(table, Some(ids), createdAtMin, createdAtMax, sinceId, orderId, storeId)
        <==> (x in GetShipmentsFiltered(table, Some(ids), createdAtMin, createdAtMax, 0, orderId, storeId)
              && x in GetShipmentsFiltered(table, None, createdAtMin, createdAtMax, sinceId, orderId, storeId))
  {
  }

  /** An empty id list behaves exactly as no id list. */
  lemma EmptyIdsImposeNoRestriction(
    table: seq<Shipment>, createdAtMin: Option<int>, createdAtMax: Option<int>,
    orderId: Option<int>, storeId: Option<int>)
    ensures GetShipmentsQuery(table, createdAtMin, createdAtMax, Some([]), orderId, storeId)
         == GetShipmentsQuery(table, createdAtMin, createdAtMax, None, orderId, storeId)
  {
  }

  /** `storeId` has no effect on the query. */
  lemma StoreIdIgnored(
    table: seq<Shipment>, createdAtMin: Option<int>, createdAtMax: Option<int>,
    ids: Option<seq<int>>, orderId: Option<int>, storeA: Option<int>, storeB: Option<int>)
    ensures GetShipmentsQuery(table, createdAtMin, createdAtMax, ids, orderId, storeA)
         == GetShipmentsQuery(table, createdAtMin, createdAtMax, ids, orderId, storeB)
  {
  }

  /** `GetShipmentsCount`: the number of rows passing the order-id and date filters.
      It has no id list, no "since id", no paging, and ignores `storeId`. */
  function GetShipmentsCount(
    table: seq<Shipment>, createdAtMin: Option<int>, createdAtMax: Option<int>,
    orderId: Option<int>, storeId: Option<int>): (n: nat)
    ensures n == |Where(table, (x: Shipment) => OrderIdMatches(orderId, x) && CreatedWithin(createdAtMin, createdAtMax, x))|
    ensures n <= |table|
  {
    var query := GetShipmentsQuery(table, createdAtMin, createdAtMax, None, orderId, storeId);
    var matching := Where(table, (x: Shipment) => OrderIdMatches(orderId, x) && CreatedWithin(createdAtMin, createdAtMax, x));
    assert multiset(query) == multiset(matching) by {
      assert forall x :: multiset(query)[x] == multiset(matching)[x];
    }
    assert |query| == |multiset(query)|;
    assert |matching| == |multiset(matching)|;
    |query|
  }

  /** With no id list and no "since id", no page holds more shipments than the count. */
  lemma PageNotLargerThanCount(
    table: seq<Shipment>, createdAtMin: Option<int>, createdAtMax: Option<int>,
    limit: int, page: int, orderId: Option<int>, storeId: Option<int>)
    ensures |GetShipments(table, None, createdAtMin, createdAtMax, limit, page, 0, orderId, storeId)|
         <= GetShipmentsCount(table, createdAtMin, createdAtMax, orderId, storeId)
  {
    assert GetShipmentsFiltered(table, None, createdAtMin, createdAtMax, 0, orderId, storeId)
        == GetShipmentsQuery(table, createdAtMin, createdAtMax, None, orderId, storeId);
  }

  /** `GetShipmentById`: nothing for a non-positive id, otherwise the first row with that id. */
  function GetShipmentById(table: seq<Shipment>, shipmentId: int): (r: Option<Shipment>)
    ensures shipmentId <= 0 ==> r.None?
    ensures shipmentId > 0 ==> (r.Some? <==> exists k :: 0 <= k < |table| && table[k].id == shipmentId)
    ensures r.Some? ==> exists k :: 0 <= k < |table| && r.value == table[k] && r.value.id == shipmentId
                                  && forall j :: 0 <= j < k ==> table[j].id != shipmentId
  {
    if shipmentId <= 0 then None
    else match IndexOfShipment(table, shipmentId)
      case None => None
      case Some(k) => Some(table[k])
  }

  /** `Table.FirstOrDefault(shipment => shipment.Id == shipmentId)`, as a row index. */
  function IndexOfShipment(table: seq<Shipment>, shipmentId: int): (k: Option<nat>)
    ensures k.Some? ==> k.value < |table| && table[k.value].id == shipmentId
                        && forall j :: 0 <= j < k.value ==> table[j].id != shipmentId
    ensures k.None? <==> forall j :: 0 <= j < |table| ==> table[j].id != shipmentId
  {
    FirstIndex(table, (s: Shipment) => s.id == shipmentId)
  }

  /** `GetShipmentsByOrderId`: the order's shipments ascending by id, at most `maxLimit`
      of them; all of them when the order has no more than `maxLimit`. */
  function GetShipmentsByOrderId(table: seq<Shipment>, orderId: int, maxLimit: int): (r: seq<Shipment>)
    ensures SortedById(r)
    ensures |r| <= Max0(maxLimit)
    ensures forall x :: x in r ==> x in table && x.orderId == orderId
    ensures |Where(table, (x: Shipment) => x.orderId == orderId)| <= maxLimit ==>
              multiset(r) == multiset(Where(table, (x: Shipment) => x.orderId == orderId))
  {
    var forOrder := Where(table, (x: Shipment) => x.orderId == orderId);
    var sorted := SortById(forOrder);
    var r := ApiList(sorted, 0, maxLimit);
    forall x | x in r ensures x in table && x.orderId == orderId {
      var i :| 0 <= i < |r| && r[i] == x;
      assert x in sorted;
      assert x in multiset(forOrder);
    }
    assert |forOrder| <= maxLimit ==> r == sorted;
    r
  }
}
