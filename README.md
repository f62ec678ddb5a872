# Products service of fakeshop-api, modelled in Dafny

This project models `ProductsService` (`src/products/products.service.ts`). The service
combines a local product table with a read-only external catalog (FakeStore):

- **findAll** lists every product. It merges the external list with the local rows, and
  a local row always wins over an external item with the same id.
- **findOne** resolves a single id.
- **create** saves a new local product under an id it allocates. The id sits above every
  local id and a margin above every external id. If a step throws, a clock-and-random
  fallback id is used instead.
- **updateStock** changes the stock of a local row. An external-only item is first
  promoted to a new local row.
- **remove** deletes a local row only.

Layout, one module per concern:

- `common.dfy` (`Common`): `Option`, `Result` and the failure kinds (`NotFound`,
  `ServiceUnavailable`, `PersistenceError`).
- `catalog.dfy` (`Catalog`): external items. `Fetch` is the outcome of a catalog call:
  data, a 404 answer (`Missing`) or any other failure (`Unavailable`). `RawId` is an
  entry of the external list as create reads its id: an integer, a string, any other
  value, or an entry whose id cannot be read.
- `entities.dfy` (`Entities`): the `Product` entity, the create request, and the three
  ways the service builds a product (synthesized view, promoted row, new row).
- `table.dfy` (`LocalTable`): the products table, kept as its rows in the database's
  natural order. It holds the repository operations the service uses: lookup by id,
  `save` (an upsert on the primary key) and `remove`.
- `allocation.dfy` (`IdAllocation`): the id arithmetic of create.
- `reconcile.dfy` (`Reconcile`): findAll and findOne. These are pure functions of the
  table's rows, the catalog's answer and the stock draws.
- `service.dfy` (`Service`): the class `ProductsService`. Its field is the table and its
  methods are `Create`, `UpdateStock` and `Remove`.
- `lifecycle.dfy` (`Lifecycle`): what a read returns after a write.

Non-determinism and collaborators are method or function parameters:

- Each `Math.floor(Math.random() * 100)` is a stock draw in [0, 99].
- The random term of the fallback id is a draw in [0, 9999].
- `new Date().getTime()` is `now`.
- Each answer of the catalog client is a `Fetch` value.
- Each database write that may throw (`save`, `remove`) and create's table query are a
  boolean that says whether it succeeded.

## Model

| member | source | states |
|---|---|---|
| `LocalTable.IndexOf` | src/products/products.service.ts:37-39 | gives the first position holding the id; it is absent exactly when no row has the id |
| `LocalTable.Lookup` | src/products/products.service.ts:76-78 | the row found has the requested id and is in the table; nothing is found exactly when the id is absent |
| `LocalTable.LookupFindsRow` | src/products/entities/product.entity.ts:16-18 | with the id as primary key, a lookup of a row's id finds that row |
| `LocalTable.Upsert` | src/products/products.service.ts:240-241 | save: afterwards the id finds the saved product and every other id finds what it found before. A new id is appended; a known id is replaced in place with all other rows kept. The id set grows by the saved id and the primary key is kept |
| `LocalTable.Delete` | src/products/products.service.ts:258 | remove: exactly one row goes when the id is present and nothing changes otherwise. Every other id finds what it found before, the id is gone, and the primary key is kept |
| `IdAllocation.ParseId` | src/products/products.service.ts:133-140 | a number id is kept as it is, a string id becomes its parseInt value, and every other case (NaN, any other type) gives 0 |
| `IdAllocation.PositiveIds` | src/products/products.service.ts:132-141 | the parsed external ids keep exactly the values > 0 that some raw id parses to |
| `IdAllocation.MaxOf` | src/products/products.service.ts:144 | Math.max of a non-empty list is an element and bounds every element |
| `IdAllocation.HighestLocalId` | src/products/products.service.ts:115-124 | 0 for an empty table, otherwise an id of the table that bounds every row's id |
| `IdAllocation.HighestExternalId` | src/products/products.service.ts:126-154 | non-negative; bounds every positive parsed external id; when positive it is one of them, so it is 0 when there are none or the fetch failed |
| `IdAllocation.NextId` | src/products/products.service.ts:156-162 | the id is at least 1000000, above the highest local id, at least the highest external id plus 100000, and equal to one of the three, so it is their maximum |
| `IdAllocation.AllocatedId` | src/products/products.service.ts:121-162 | the id is at least 1000000, above every local id and at least 100000 above every positive readable external id. It equals 1000000, a local id plus 1 or a positive external id plus 100000, so it is the least such number |
| `IdAllocation.TimeSlot` | src/products/products.service.ts:183-185 | JavaScript `%` by 1000000: in [0, 999999] for a non-negative clock, in [-999999, 0] for a negative one, and it differs from the clock by a multiple of 1000000 |
| `IdAllocation.FallbackId` | src/products/products.service.ts:182-185 | the fallback id lies in [2000000, 3009998] for a non-negative clock and is above 1000000 for any clock |
| `IdAllocation.AllocatedIdIsFresh` | src/products/products.service.ts:156-162 | the allocated id is at least 1000000, above every local id (so new to the table), and at least 100000 above every positive external id |
| `IdAllocation.AllocatedIdAvoidsCatalog` | src/products/products.service.ts:126-162 | the allocated id equals no id in the external list that was read |
| `IdAllocation.SmallSourcesGiveBaseId` | src/products/products.service.ts:157-162 | a local maximum of 3 and external ids of at most 20 give exactly 1000000 |
| `IdAllocation.UnreadableEntryDiscardsList` | src/products/products.service.ts:128-154 | one list entry whose id cannot be read throws inside the inner try, and create then allocates exactly as if the catalog call had failed |
| `IdAllocation.FailedCatalogCountsAsZero` | src/products/products.service.ts:150-154 | a failed external fetch allocates as if the highest external id were 0 |
| `Reconcile.Resolve` | src/products/products.service.ts:37-56 | the entry for one external item has the item's id. It is the local row with that id when there is one. Otherwise it copies the item's fields, is non-local and takes the draw as stock |
| `Reconcile.MapExternal` | src/products/products.service.ts:36-57 | one entry per external item, in catalog order, with the item's id. Where a local row has that id the entry is that row unchanged. Otherwise it copies the item's fields, is non-local and has a stock in [0, 99] |
| `Reconcile.KeepUnmatched` | src/products/products.service.ts:59-62 | keeps exactly the local rows whose id is not already shown, and never more rows than the table has |
| `Reconcile.ListAll` | src/products/products.service.ts:28-66 | findAll fails with the catalog's unavailable error exactly when the external list fetch fails (no partial list); otherwise it has at least one entry per external item |
| `Reconcile.KeepUnmatchedAppend` | src/products/products.service.ts:60-62 | the filter distributes over concatenation, so it keeps table order |
| `Reconcile.KeepUnmatchedDistinct` | src/products/products.service.ts:60-62 | the filter keeps the primary key |
| `Reconcile.DeleteKeepsOrder` | src/products/products.service.ts:258 | under the primary key, removing a row equals the in-order filter that drops its id, so the other rows keep their order |
| `Reconcile.MappedIds` | src/products/products.service.ts:59-62 | the ids the filter tests are exactly the external ids |
| `Reconcile.ListAllLayout` | src/products/products.service.ts:36-65 | findAll is the mapped external list followed by exactly the local rows with no external id, in table order, so its length is the number of external items plus the number of such rows. It also states entry by entry the local precedence and the synthesized fields |
| `Reconcile.ListAllDistinctIds` | src/products/products.service.ts:59-65 | with distinct external ids and a keyed table, no id appears twice in findAll |
| `Reconcile.ListAllShowsEveryLocalRow` | src/products/products.service.ts:36-65 | with a keyed table every local row appears in findAll |
| `Reconcile.ListAllLocalFlag` | src/products/products.service.ts:45-56 | every entry flagged local is a table row, and every external id is shown |
| `Reconcile.ListAllExternalOnly` | src/products/products.service.ts:45-56 | an empty table and a one-item catalog give one non-local product with the item's fields and a stock in [0, 99] |
| `Reconcile.ListAllLocalWins` | src/products/products.service.ts:37-43 | a local row sharing the only external item's id is listed alone and verbatim, stock included |
| `Reconcile.GetOne` | src/products/products.service.ts:74-105 | a local row is returned when one exists. Otherwise a successful external lookup gives a non-local copy with a stock in [0, 99]. Otherwise, whether the catalog said 404 or failed, the result is NotFound and no other error |
| `Reconcile.GetOneLocalIgnoresCatalog` | src/products/products.service.ts:76-82 | for a local row, neither the catalog's answer nor the draw affects findOne, which returns the row verbatim |
| `Reconcile.GetOneRepeatable` | src/products/products.service.ts:88-98 | two findOne calls on an external-only id succeed or fail together and agree on all fields except stock |
| `Service.ProductsService.Create` | src/products/products.service.ts:113-198 | normal path: returns the request's fields with the allocated id, local and with a draw as stock, and appends it to the table. Fallback after a failed query or save: the fallback id, upserted. A failed fallback save gives PersistenceError and leaves the table unchanged. Every other id keeps its row and the table stays owned |
| `Service.ProductsService.UpdateStock` | src/products/products.service.ts:208-242 | local row: only its stock changes and every other id keeps its row. No local row and an external hit: the promoted row (external fields, the new stock, local) is saved, and it is appended when the item has the requested id. Lookup failure: NotFound with the table unchanged. Save failure: PersistenceError with the table unchanged |
| `Service.ProductsService.Remove` | src/products/products.service.ts:249-259 | no local row gives NotFound whatever the catalog holds and changes nothing. Otherwise exactly that row is deleted and every other id keeps its row. A failed delete gives PersistenceError and changes nothing |
| `Lifecycle.PromotedThenRead` | src/products/products.service.ts:214-230 | after a promotion with stock s, findOne of that id returns the local row with stock s whatever the catalog and the draw |
| `Lifecycle.RestockedThenRead` | src/products/products.service.ts:239-241 | after a restock, findOne returns the row with the new stock and its other fields unchanged |
| `Lifecycle.CreatedThenListed` | src/products/products.service.ts:156-176 | a product created against an external list is shown verbatim by a findAll of the same list |
| `Lifecycle.RemovedThenRead` | src/products/products.service.ts:249-258 | after remove, findOne of the id gives NotFound if the catalog lacks it and the synthesized external item otherwise |

Behaviour of the code the model keeps:

- TypeORM's `save` updates the row that already has the saved product's primary key
  and inserts a row otherwise. The fallback path of create can therefore overwrite an
  existing row whose id equals the fallback id. `Create` states this as `Upsert`.
- In the promotion path of updateStock, the save's promise is returned without `await`
  inside the `try` (line 230). A failed save therefore escapes the `catch` and reaches
  the caller as a persistence error, not as NotFound.
- findOne's `catch` (lines 99-104) turns every failure of the catalog lookup into
  NotFound, a 404 answer and an unavailable catalog alike. findAll has no `catch`, so the
  catalog's unavailable error reaches its caller (line 30).

## Left out

- The HTTP client `src/external/fakestore/fakestore.service.ts` is not part of this
  model. Its answers are `Fetch` values: its 404 maps to `Missing`, anything else to
  `Unavailable`, and the list call fails only as `Unavailable`.
- The controller, module wiring, bootstrap, configuration, the exception filter and the
  response interceptor are not part of this model. They do delegation and formatting
  only.
- DTO validation is framework code. Only the non-negative stock of UpdateStockDto is
  kept, as a precondition of `UpdateStock`. The positive price, non-empty strings and
  URL checks of CreateProductDto are not used by the service.
- `createdAt`, `updatedAt` and the external item's `rating` are not modelled. Prices are
  exact reals and are only copied; decimal(10,2) rounding by the database is not
  modelled.
- The 32-bit range of the `id` column is not modelled. An id out of range would make the
  save throw, which the model covers only as an arbitrary failed save.
- Logging, `async` scheduling and the race between concurrent creates are not modelled.
  Each method runs alone.
- Failures of repository reads (`find`, `findOne`) are modelled only in create, where
  they trigger the fallback. In the other operations they would propagate unchanged.
- `Reconcile.ListAll`: takes one stock draw per external item, used only where no local
  row matches. The source calls `Math.random` only for unmatched items; any values in
  range are allowed either way.
- `LocalTable.Upsert`: the table's natural order is taken as fixed. A new row is
  appended, and a replaced row keeps its position. `find()` has no ORDER BY, and the
  database may return an updated row at another position. The findAll lemmas hold for
  any order of the rows passed in.
- findAll and findOne compare external ids as numbers, their declared type. Only create
  handles string and other run-time id values, and `RawId` models that for create.
- `IdAllocation.ParseId`: ids are integers. A fractional number id, which create keeps
  as it is (line 134), is not modelled. Neither is a list that is not an array.
- `IdAllocation.HighestLocalId`: the source reads the ten rows with the highest ids and
  takes their maximum, which is the maximum of the whole table. The model takes that
  maximum directly.
