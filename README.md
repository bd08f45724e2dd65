# Shipment API of the nopCommerce API plugin, in Dafny

This project models the shipment endpoints of the nopCommerce Web API plugin. It covers:

- the **query pipeline** of `ShipmentApiService`. Its optional filters are order id, id list and exclusive bounds on `CreatedOnUtc`. It always sorts ascending by `Id`, applies an optional strict "since id" filter, and returns a 1-based page/limit window. The module also holds the count variant and the by-id and by-order lookups;
- **item paging** of `ShipmentItemApiService`: a window over a shipment's own item collection, and its count;
- the request guards and partial updates of `ShipmentsController` and `ShipmentItemsController`:
  - page, limit and id validation, in the order the source reports them;
  - a payload merged onto a freshly created entity or onto one loaded from the store;
  - fields forced back after a merge: `Order` on create, `ProductId` on item update;
  - deleting a shipment, and deleting all of a shipment's items from a snapshot.

Layout, one module per file:

- `Wrappers`: `Option` and the endpoint `Response`.
- `Configurations`: the paging constants, as a parameter.
- `Domain`: the entities.
- `Linq`: `Where`, `FirstIndex`, `Skip` and `Take` with .NET semantics.
- `DataStructures`: `ApiList`.
- `Delta`: payloads and the merge.
- `ShipmentApiService` and `ShipmentItemApiService`: the two services.
- `Store`: the persistent state, a class `ShipmentStore` whose methods update it in place.
- `ShipmentsController` and `ShipmentItemsController`: the two controllers.
- `ShipmentScenarios`: concrete cases.

Each endpoint that changes state has two parts:

- a specification function `…Outcome`, which says what the endpoint answers and which table it leaves;
- a method on the store that is proved to produce exactly that.

Lemmas about the outcome functions relate operations to each other, for example "an updated shipment reads back by id" and "a deleted shipment can no longer be found".

Assumptions about code that is not shown:

- `ApiList(source, pageIndex, pageSize)` is `source.Skip(pageIndex * pageSize).Take(pageSize)`. .NET semantics apply: a non-positive skip skips nothing, and a non-positive take takes nothing.
- `Delta<T>.Merge` overwrites exactly the properties present in the payload. A shipment payload maps property names to values. A value applies only when its kind fits the property; the JSON binder produces no other.
- `Configurations.MinLimit`, `MaxLimit` and `DefaultPageValue` are abstract integers. `Config.Valid` states `MinLimit <= MaxLimit` and `DefaultPageValue == 1`. No guard needs it; `ShipmentsController.FirstPageAtMaxLimitAccepted` uses it to show the guards admit a request.
- The repository table is a sequence of rows. `FirstOrDefault` and the host's `GetShipmentItemById` return the first match. Ids are not assumed unique, except where a lemma says so (`UniqueIds`).

Where the source differs from its description:

- `UpdateShipment` reports a missing shipment as NotFound under the key "order", not "shipment" (Controllers/ShipmentsController.cs:384).
- `GetShipments` reports a bad limit under the key "page" (Controllers/ShipmentsController.cs:125).
- `CreateShipment` builds and returns the new shipment but never persists it. The model therefore leaves the table unchanged.
- `ShipmentDto` binds `OrderId` to the JSON name "oder_id" (DTOs/Shipments/ShipmentDto.cs:17). A client sending `order_id` therefore leaves `OrderId` at 0, and `CreateShipment` answers NotFound("order") unless an order with id 0 exists. In the model the payload key is the field `OrderIdField`, whatever its JSON name.
- `ShipmentFactory.Initialize` assigns `shipment.CreateOnUtc` (Factories/ShipmentFactory.cs:14), while the entity's property is `CreatedOnUtc`. The model takes it as the creation instant `Domain.NewShipment` sets.
- `ShipmentItemDto` declares no `ProductId`, yet the controller reads `Dto.ProductId`. The model follows the controller: an item payload may carry a nullable `ProductId`. Likewise, `PrepareDefaultShipmentItemFromProduct` builds an `OrderItem`; the model takes it as the shipment item it is used as.

## Model

| member | source | states |
|---|---|---|
| Linq.Where | Nop.Plugin.Api/Services/ShipmentApiService.cs:66-74 | the kept elements are exactly those satisfying the predicate, each with its multiplicity in the source, and there are no more of them than the source has |
| Linq.WhereWhere | Nop.Plugin.Api/Services/ShipmentApiService.cs:64-101 | two successive `Where` filters equal one filter on the conjunction, so the optional filters combine conjunctively |
| Linq.FirstIndex | Nop.Plugin.Api/Services/ShipmentApiService.cs:51 | the index of the first element satisfying the predicate; none exactly when no element does |
| Linq.Skip | Nop.Plugin.Api/Services/ShipmentApiService.cs:43 | drops the first `n` elements, nothing for `n <= 0`, everything when `n` passes the end |
| Linq.Take | Nop.Plugin.Api/Services/ShipmentApiService.cs:43 | keeps the first `n` elements, none for `n <= 0`, all when `n` passes the end |
| DataStructures.ApiList | Nop.Plugin.Api/Services/ShipmentApiService.cs:43 | at most `pageSize` elements, forming the contiguous window of the source starting at offset `pageIndex * pageSize` (clamped), and as long as the source allows |
| DataStructures.PageBeyondEndIsEmpty | Nop.Plugin.Api/Services/ShipmentItemApiService.cs:15 | a page whose offset is at or past the end is empty |
| DataStructures.PagesArePrefix | Nop.Plugin.Api/Services/ShipmentApiService.cs:43 | for a positive page size, pages 0..k-1 concatenated are the source's prefix of length `k * pageSize` (clamped): no element is repeated or skipped |
| DataStructures.PagesCoverSource | Nop.Plugin.Api/Services/ShipmentItemApiService.cs:15 | once `k * pageSize` reaches the length, the first `k` pages list the whole source in order |
| DataStructures.WrapInt32 | Nop.Plugin.Api/Services/ShipmentItemApiService.cs:15 | the value of a C# `int` after an unchecked operation: within the 32-bit range and congruent to the exact result modulo 2^32 |
| DataStructures.ApiListInt32 | Nop.Plugin.Api/Services/ShipmentItemApiService.cs:15 | the page as computed with a wrapping 32-bit offset: the window at the wrapped offset |
| DataStructures.HugePageWrapsToFirstPage | Nop.Plugin.Api/Services/ShipmentItemApiService.cs:15 | page index 2^30 with page size 2 over one item returns that item with the 32-bit product, but nothing with the exact product |
| Domain.NewShipment | Nop.Plugin.Api/Factories/ShipmentFactory.cs:10-17 | a fresh shipment has id 0, no order, no items, and `CreatedOnUtc` set to the given instant |
| Delta.MergeShipment | Nop.Plugin.Api/Controllers/ShipmentsController.cs:294 | every property present in the payload with a fitting value is overwritten with it; every other property, the order and the items are kept |
| Delta.MergeShipmentEmpty | Nop.Plugin.Api/Controllers/ShipmentsController.cs:416 | an empty payload leaves the shipment unchanged |
| Delta.MergeShipmentIdempotent | Nop.Plugin.Api/Controllers/ShipmentsController.cs:416 | merging the same payload twice is the same as merging it once |
| Delta.MergeShipmentKeepsAbsent | Nop.Plugin.Api/Controllers/ShipmentsController.cs:416 | two shipments that agree on every property the payload does not set merge to the same result |
| Delta.DtoInt | Nop.Plugin.Api/Controllers/ShipmentsController.cs:255 | `Dto.OrderId` / `Dto.Id`: the payload's integer, or 0 when the payload lacks the property |
| Delta.MergeShipmentItem | Nop.Plugin.Api/Controllers/ShipmentItemsController.cs:247 | every item property present in the payload is overwritten, every other is kept |
| Delta.MergeShipmentItemEmpty | Nop.Plugin.Api/Controllers/ShipmentItemsController.cs:301 | an empty payload leaves the item unchanged |
| Delta.MergeShipmentItemIdempotent | Nop.Plugin.Api/Controllers/ShipmentItemsController.cs:301 | merging the same item payload twice is the same as merging it once |
| Delta.DtoProductId | Nop.Plugin.Api/Controllers/ShipmentItemsController.cs:215 | `Dto.ProductId` is present exactly when the payload carries it, and then has the payload's value |
| ShipmentApiService.SortById | Nop.Plugin.Api/Services/ShipmentApiService.cs:108 | `OrderBy(Id)`: ascending by id and a permutation of its input (same multiset, same length) |
| ShipmentApiService.SortSortedIsIdentity | Nop.Plugin.Api/Services/ShipmentApiService.cs:108 | sorting a sequence that is already ascending by id leaves it unchanged |
| ShipmentApiService.WhereKeepsSorted | Nop.Plugin.Api/Services/ShipmentApiService.cs:38-41 | filtering a sorted sequence keeps it sorted, so the "since id" filter after the sort keeps the order |
| ShipmentApiService.FilterByOrderId | Nop.Plugin.Api/Services/ShipmentApiService.cs:66-69 | with no order id, every row with its multiplicity; with one, exactly the rows whose `OrderId` equals it |
| ShipmentApiService.FilterByIds | Nop.Plugin.Api/Services/ShipmentApiService.cs:71-74 | a null or empty id list keeps every row; a non-empty one keeps exactly the rows whose id is in it |
| ShipmentApiService.FilterByCreated | Nop.Plugin.Api/Services/ShipmentApiService.cs:93-101 | `createdAtMin` is a strict lower and `createdAtMax` a strict upper bound on `CreatedOnUtc`, each applied only when supplied |
| ShipmentApiService.GetShipmentsQuery | Nop.Plugin.Api/Services/ShipmentApiService.cs:61-122 | ascending by id; each row matching every supplied filter, with its multiplicity in the table, and nothing else: a sub-multiset of the repository |
| ShipmentApiService.GetShipmentsFiltered | Nop.Plugin.Api/Services/ShipmentApiService.cs:36-41 | the query further restricted to `Id > sinceId` when `sinceId > 0`; still sorted, with exact multiplicities |
| ShipmentApiService.GetShipments | Nop.Plugin.Api/Services/ShipmentApiService.cs:32-44 | sorted, at most `limit` rows, all from the table and passing every filter, forming the contiguous window at offset `(page - 1) * limit` of the filtered sequence |
| ShipmentApiService.IdsAndSinceIdIntersect | Nop.Plugin.Api/Services/ShipmentApiService.cs:36-41 | with an id list and a "since id", a row is listed exactly when both filters alone would list it |
| ShipmentApiService.EmptyIdsImposeNoRestriction | Nop.Plugin.Api/Services/ShipmentApiService.cs:71-74 | an empty id list gives the same query as no id list |
| ShipmentApiService.StoreIdIgnored | Nop.Plugin.Api/Services/ShipmentApiService.cs:103-106 | the store id has no effect on the query |
| ShipmentApiService.GetShipmentsCount | Nop.Plugin.Api/Services/ShipmentApiService.cs:54-59 | the number of rows passing the order-id and date filters, whatever ids, "since id", page and limit |
| ShipmentApiService.PageNotLargerThanCount | Nop.Plugin.Api/Services/ShipmentApiService.cs:32-59 | with no id list and no "since id", a page never holds more shipments than the count reports |
| ShipmentApiService.GetShipmentById | Nop.Plugin.Api/Services/ShipmentApiService.cs:46-52 | nothing for `id <= 0`; otherwise found exactly when some row has the id, and then it is the first such row |
| ShipmentApiService.IndexOfShipment | Nop.Plugin.Api/Services/ShipmentApiService.cs:51 | the row index of the first shipment with the id; none exactly when no row has it |
| ShipmentApiService.GetShipmentsByOrderId | Nop.Plugin.Api/Services/ShipmentApiService.cs:22-30 | ascending by id, at most `MaxLimit` rows, all of that order; every shipment of the order when it has no more than `MaxLimit` |
| ShipmentScenarios.SecondPageOfThree | Nop.Plugin.Api/Services/ShipmentApiService.cs:32-44 | ten shipments with ids 1..10, limit 3 and page 2 give ids 4, 5, 6 |
| ShipmentScenarios.UnfilteredRows | Nop.Plugin.Api/Services/ShipmentApiService.cs:36-41 | for every table already sorted by id, the query with no filter and no "since id" returns the table unchanged |
| ShipmentScenarios.IdsWithSinceId | Nop.Plugin.Api/Services/ShipmentApiService.cs:36-41 | over ids 1..10, ids [3, 7] with "since id" 4 list shipment 7 alone |
| ShipmentScenarios.IdsWithSinceIdOn | Nop.Plugin.Api/Services/ShipmentApiService.cs:36-41 | the `IdsWithSinceId` scenario, for a table given row by row as `Row(1)..Row(10)`, which is what `Rows()` is |
| ShipmentItemApiService.GetShipmentItemsForShipment | Nop.Plugin.Api/Services/ShipmentItemApiService.cs:11-16 | at most `limit` items, all from the shipment's own collection, forming the contiguous window at offset `(page - 1) * limit` in collection order |
| ShipmentItemApiService.GetShipmentItemsCount | Nop.Plugin.Api/Services/ShipmentItemApiService.cs:18-23 | the number of items in the shipment's collection |
| ShipmentItemApiService.SinceIdIgnored | Nop.Plugin.Api/Services/ShipmentItemApiService.cs:11-16 | the `sinceId` argument does not change the page |
| ShipmentItemApiService.PagesListEveryItem | Nop.Plugin.Api/Services/ShipmentItemApiService.cs:13-23 | for a positive limit, enough pages to reach the count list every item exactly once, in collection order |
| ShipmentItemApiService.PagePastCountIsEmpty | Nop.Plugin.Api/Services/ShipmentItemApiService.cs:15 | a page whose offset reaches the count is empty |
| Store.LocateItem | Nop.Plugin.Api/Controllers/ShipmentItemsController.cs:282 | the location of the first item with the id, scanning shipments in table order; none exactly when no item has it |
| Store.RemoveAt | Nop.Plugin.Api/Controllers/ShipmentsController.cs:357 | the table without that row: one row fewer, the rows before and after kept in order, the multiset less that one row |
| Store.RemoveFirst | Nop.Plugin.Api/Controllers/ShipmentItemsController.cs:363 | the collection less one occurrence of the item, unchanged when it is absent |
| Store.ShipmentStore.ReplaceShipment | Nop.Plugin.Api/Controllers/ShipmentsController.cs:421 | persisting a shipment replaces its row and changes nothing else |
| Store.ShipmentStore.RemoveShipment | Nop.Plugin.Api/Controllers/ShipmentsController.cs:357 | deleting a shipment removes its row and changes nothing else |
| Store.ShipmentStore.AddShipmentItem | Nop.Plugin.Api/Controllers/ShipmentItemsController.cs:249-251 | the item is appended to that shipment's collection and nothing else changes |
| Store.ShipmentStore.ReplaceShipmentItem | Nop.Plugin.Api/Controllers/ShipmentItemsController.cs:301-307 | the item at the location is replaced and nothing else changes |
| Store.ShipmentStore.DeleteShipmentItem | Nop.Plugin.Api/Controllers/ShipmentItemsController.cs:363 | one occurrence of the item leaves that shipment's collection and nothing else changes |
| ShipmentsController.GetShipments | Nop.Plugin.Api/Controllers/ShipmentsController.cs:116-145 | a page below `DefaultPageValue` is rejected first, then a limit outside `[MinLimit, MaxLimit]`, both under the key "page" with their own messages; accepted exactly when both pass, and then the answer is exactly the service's page for the same parameters: sorted, at most `MaxLimit` filtered rows |
| ShipmentsController.FirstPageAtMaxLimitAccepted | Nop.Plugin.Api/Controllers/ShipmentsController.cs:118-126 | with valid paging constants, page 1 at the largest limit passes both guards |
| ShipmentsController.GetShipmentsCount | Nop.Plugin.Api/Controllers/ShipmentsController.cs:158-170 | always accepted, with no page or limit check; the count of rows passing the order-id and date filters |
| ShipmentsController.GetShipmentById | Nop.Plugin.Api/Controllers/ShipmentsController.cs:187-209 | BadRequest("id") for `id <= 0`; otherwise NotFound("shipment") exactly when no row has the id, and Ok exactly when the service finds it, answering the first row with that id |
| ShipmentsController.GetShipmentsByOrderId | Nop.Plugin.Api/Controllers/ShipmentsController.cs:222-232 | always accepted, answering exactly the service's `GetShipmentsByOrderId` at `MaxLimit`: the order's shipments, sorted, at most `MaxLimit` |
| ShipmentsController.CreateShipment | Nop.Plugin.Api/Controllers/ShipmentsController.cs:241-333 | model-state errors first; NotFound("order") exactly when the payload's `OrderId` names no order; otherwise a fresh shipment with the payload merged, no items, and `Order` set to the looked-up order whatever the payload says |
| ShipmentsController.DeleteShipmentOutcome | Nop.Plugin.Api/Controllers/ShipmentsController.cs:343-363 | BadRequest("id") for `id <= 0`, NotFound("shipment") when no row has the id, both leaving the table; otherwise accepted, with exactly the first row carrying the id removed and every other row kept in order |
| ShipmentsController.RemoveAtDropsId | Nop.Plugin.Api/Controllers/ShipmentsController.cs:350-357 | with unique ids, removing a row leaves no row with its id and keeps every other row |
| ShipmentsController.DeletedShipmentIsGone | Nop.Plugin.Api/Controllers/ShipmentsController.cs:350-357 | with unique ids, after a delete the id is no longer found and every other shipment is still there |
| ShipmentsController.DeleteShipment | Nop.Plugin.Api/Controllers/ShipmentsController.cs:343-363 | answers and leaves the store as `DeleteShipmentOutcome` says, orders and products untouched |
| ShipmentsController.UpdateShipmentOutcome | Nop.Plugin.Api/Controllers/ShipmentsController.cs:372-421 | model-state errors first; NotFound("order") exactly when no shipment has the payload's `Id`, leaving the table; accepted exactly when the model state is valid and the shipment exists, and then the payload merged onto the loaded shipment, stored back in its row |
| ShipmentsController.UpdatedShipmentReadsBack | Nop.Plugin.Api/Controllers/ShipmentsController.cs:380-421 | after an update, the same id reads back the merged shipment, which keeps the loaded order and items; no row with another id changes |
| ShipmentsController.UpdateShipment | Nop.Plugin.Api/Controllers/ShipmentsController.cs:372-421 | answers and leaves the store as `UpdateShipmentOutcome` says, orders and products untouched |
| ShipmentItemsController.GetShipmentItems | Nop.Plugin.Api/Controllers/ShipmentItemsController.cs:97-128 | a limit outside `[MinLimit, MaxLimit]` is rejected first as BadRequest("limit"), then a page below `DefaultPageValue` as BadRequest("page"), then NotFound("shipment"); otherwise exactly the service's page of that shipment's items for the same limit, page and "since id", at most `MaxLimit` of them |
| ShipmentItemsController.GetShipmentItemsCount | Nop.Plugin.Api/Controllers/ShipmentItemsController.cs:137-154 | NotFound("shipment") exactly when the shipment is missing, otherwise the number of its items |
| ShipmentItemsController.GetProduct | Nop.Plugin.Api/Controllers/ShipmentItemsController.cs:369-381 | no product for a null id or an unknown id; otherwise the catalogue's product with that id |
| ShipmentItemsController.DefaultShipmentItem | Nop.Plugin.Api/Controllers/ShipmentItemsController.cs:383-408 | the default item has quantity 1, the product's id, the shipment's id and id 0 |
| ShipmentItemsController.CreateShipmentItemOutcome | Nop.Plugin.Api/Controllers/ShipmentItemsController.cs:198-263 | model-state errors, then NotFound("shipment"), then NotFound("product") for an absent or unknown `ProductId`, each leaving the table; accepted exactly when all three pass, and then the item appended to that shipment has every payload property and the default item's value for every other one (quantity 1, unless the payload sets it) |
| ShipmentItemsController.CreatedItemIsCounted | Nop.Plugin.Api/Controllers/ShipmentItemsController.cs:246-251 | after a create, the shipment reads back with its old items followed by the new one, and its count is one higher |
| ShipmentItemsController.CreateShipmentItem | Nop.Plugin.Api/Controllers/ShipmentItemsController.cs:198-263 | answers and leaves the store as `CreateShipmentItemOutcome` says |
| ShipmentItemsController.UpdatedItem | Nop.Plugin.Api/Controllers/ShipmentItemsController.cs:296-303 | `ProductId` equals its value before the merge, for every payload; every other property is the payload's when present, else the old one |
| ShipmentItemsController.UpdatedItemIgnoresProductId | Nop.Plugin.Api/Controllers/ShipmentItemsController.cs:296-303 | saving and restoring `ProductId` around the merge equals merging the payload with `ProductId` removed |
| ShipmentItemsController.UpdateShipmentItemOutcome | Nop.Plugin.Api/Controllers/ShipmentItemsController.cs:272-319 | model-state errors; then NotFound("shipment_item") when no item has the id, checked before the shipment; then NotFound("shipment"); accepted exactly when all three pass, and then the updated item replaces the original where it sits |
| ShipmentItemsController.UpdateShipmentItem | Nop.Plugin.Api/Controllers/ShipmentItemsController.cs:272-319 | answers and leaves the store as `UpdateShipmentItemOutcome` says |
| ShipmentItemsController.DeleteAllOutcome | Nop.Plugin.Api/Controllers/ShipmentItemsController.cs:350-367 | NotFound("shipment") exactly when the shipment is missing, leaving the table; otherwise that shipment's collection is emptied and nothing else changes |
| ShipmentItemsController.DeleteAllLeavesNoItems | Nop.Plugin.Api/Controllers/ShipmentItemsController.cs:359-364 | after deleting all items, the shipment counts zero items and no row with another id changes |
| ShipmentItemsController.DeleteAllShipmentItemsForShipment | Nop.Plugin.Api/Controllers/ShipmentItemsController.cs:350-367 | deleting every item of a snapshot taken before the loop, one at a time, leaves the store as `DeleteAllOutcome` says |

## Left out

- HTTP routing, authorisation attributes, model binders and dependency injection: framework glue. The model-state check (`ModelState.IsValid`) becomes a boolean parameter.
- JSON serialisation with field selection, `RawJsonActionResult`, and the DTO mapping (`PrepareShipmentDTO`, `ToDto`). These are foreign calls whose bodies are not part of this model. Endpoints answer entity records instead of DTOs.
- Prices, taxes and costs in `PrepareDefaultShipmentItemFromProduct`: decimal arithmetic in external services. Only the quantity, product and shipment defaults are kept.
- Activity logging (`InsertActivity`): it has no effect on the answers or the state modelled here.
- The clock:
  - `ShipmentFactory.Initialize` reads `DateTime.UtcNow`; the instant is a parameter `now`.
  - `ToUniversalTime` conversions are left out; instants are integers already in UTC.
- Nested payload merges (a shipment payload's `ShipmentItems` or `Order`): `Delta.Merge`'s body is not part of this model. A merge never changes a shipment's order or items.
- Id assignment by the database on insert: a created item keeps the id the payload gives it, or 0.
- Null strings are modelled as the empty string.
- The host's product lookup (`GetProductById`) is a map lookup; any rule it applies to non-positive ids is not part of this model.
- The host's item lookup (`GetShipmentItemById`) is the first item with that id in table order; any rule it applies to non-positive ids is not part of this model.
- Database-provider behaviour for a negative `Skip` on the shipment query: the model uses .NET's in-memory semantics.
- `GetShipmentItemByIdForShipment` and `DeleteShipmentItemById`: these endpoints are outside the modelled core. The second passes a possibly null item to the host's delete.
- All commented-out code, such as the shipping options, the store filter and the cart building.
- ShipmentApiService.SortById: states sortedness and permutation, not stability among equal ids. The database's order for equal ids is unspecified.
- ShipmentApiService.GetShipmentsByOrderId: when an order has more than `MaxLimit` shipments, the model states only the bound and membership. It does not state which `MaxLimit` of them are returned.
- ShipmentApiService.GetShipments, ShipmentApiService.GetShipmentsByOrderId, ShipmentItemApiService.GetShipmentItemsForShipment: the page offset `(page - 1) * limit` is exact. The 32-bit wrap of that product in the host's `ApiList` is modelled only by `DataStructures.ApiListInt32` (see Findings).
- ShipmentItemsController.CreateShipmentItemOutcome, ShipmentItemsController.CreateShipmentItem, ShipmentItemsController.UpdateShipmentItemOutcome, ShipmentItemsController.UpdateShipmentItem: collection membership follows nesting. A payload `shipment_id` is merged into the item's `ShipmentId` but does not move the item to another shipment's collection, although in the database that foreign key decides membership.
- ShipmentsController.CreateShipment: the host's order lookup (`GetOrderById`) is a map lookup; any rule it applies to id 0 or negative ids is not part of this model.

## Findings

| source | as written | input that shows it | evidently intended | confidence | as-written member | corrected member |
|---|---|---|---|---|---|---|
| Nop.Plugin.Api/Services/ShipmentItemApiService.cs:15 | `page - 1` and `limit` go to `ApiList`, which skips `pageIndex * pageSize` computed as a 32-bit `int`; the product wraps for large pages | a shipment with one item, `page = 1073741825`, `limit = 2`: the offset 2^31 wraps to -2^31, `Skip` skips nothing, and the first page comes back | a page whose offset is past the end is empty | low: the `ApiList` body is not part of this model; not executed | DataStructures.HugePageWrapsToFirstPage | DataStructures.PageBeyondEndIsEmpty |
