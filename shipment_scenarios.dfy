/** Two worked examples of the shipment query, over small tables. */
module ShipmentScenarios {
  import opened Wrappers
  import opened Domain
  import opened ShipmentApiService

  /** Shipment `i` of order 0, created at instant `i`. */
  function Row(i: int): Shipment {
    Shipment(i, 0, None, "", None, None, None, "", i, [])
  }

  /** Shipments 1..10, in id order. */
  function Rows(): (t: seq<Shipment>)
    ensures |t| == 10 && forall i :: 0 <= i < 10 ==> t[i] == Row(i + 1)
  {
    seq(10, i => Row(i + 1))
  }

  /** With no filter and no "since id", the paged sequence of a table already in id
      order is the table itself. */
  lemma UnfilteredRows(t: seq<Shipment>)
    requires SortedById(t)
    ensures GetShipmentsFiltered(t, None, None, None, 0, None, None) == t
  {
    SortSortedIsIdentity(t);
    assert FilterByCreated(FilterByIds(FilterByOrderId(t, None), None), None, None) == t;
  }

  /** Ten shipments with ids 1..10: page 2 with limit 3 holds ids 4, 5 and 6. */
  lemma SecondPageOfThree()
    ensures GetShipments(Rows(), None, None, None, 3, 2, 0, None, None) == [Row(4), Row(5), Row(6)]
  {
    assert SortedById(Rows());
    UnfilteredRows(Rows());
    var r := GetShipments(Rows(), None, None, None, 3, 2, 0, None, None);
    assert |r| == 3 && r[0] == Row(4) && r[1] == Row(5) && r[2] == Row(6);
  }

  /** `ids = [3, 7]` with `sinceId = 4` leaves shipment 7 alone. */
  lemma IdsWithSinceId(x: Shipment)
    ensures x in GetShipmentsFiltered(Rows(), Some([3, 7]), None, None, 4, None, None) <==> x == Row(7)
  {
    IdsWithSinceIdOn(Rows(), x);
  }

  /** The `IdsWithSinceId` scenario, stated for a table given row by row as `Row(1)..Row(10)`,
      which is what `Rows()` is. */
  lemma IdsWithSinceIdOn(t: seq<Shipment>, x: Shipment)
    requires |t| == 10 && forall i :: 0 <= i < 10 ==> t[i] == Row(i + 1)
    ensures x in GetShipmentsFiltered(t, Some([3, 7]), None, None, 4, None, None) <==> x == Row(7)
  {
    IdsThreeOrSeven(x);
    RowSevenIsTheOnlySeven(t, x);
  }

  lemma IdsThreeOrSeven(x: Shipment)
    ensures IdsMatch(Some([3, 7]), x) <==> x.id == 3 || x.id == 7
  {
    assert [3, 7][0] == 3 && [3, 7][1] == 7;
  }

  lemma RowSevenIsTheOnlySeven(t: seq<Shipment>, x: Shipment)
    requires |t| == 10 && forall i :: 0 <= i < 10 ==> t[i] == Row(i + 1)
    ensures x in t && x.id == 7 <==> x == Row(7)
  {
    if x == Row(7) {
      assert t[6] == x;
    }
    if x in t && x.id == 7 {
      var i :| 0 <= i < 10 && t[i] == x;
      assert i == 6;
    }
  }
}
