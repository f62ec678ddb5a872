/** What a read sees after a write: the table states the service's methods leave
    (Upsert, Delete and the appended row of create) fed back into findAll and findOne. */
module Lifecycle {
  import opened Common
  import opened Catalog
  import opened Entities
  import opened LocalTable
  import opened IdAllocation
  import opened Reconcile

  /** After updateStock promotes an external-only item with stock s, findOne of its id
      returns the promoted local row, stock s, whatever the catalog and the draw. */
  lemma PromotedThenRead(rows: seq<Product>, e: ExternalItem, s: int, fetched: Fetch<ExternalItem>, draw: int)
    requires DistinctIds(rows) && e.id !in Ids(rows)
    requires IsStockDraw(draw)
    ensures GetOne(Upsert(rows, Promote(e, s)), e.id, fetched, draw) == Ok(Promote(e, s))
    ensures GetOne(Upsert(rows, Promote(e, s)), e.id, fetched, draw).value.isLocal
  {
  }

  /** After updateStock on a local row, findOne of its id returns the row with the new
      stock and every other field as before. */
  lemma RestockedThenRead(rows: seq<Product>, p: Product, s: int, fetched: Fetch<ExternalItem>, draw: int)
    requires DistinctIds(rows) && p in rows
    requires IsStockDraw(draw)
    ensures GetOne(Upsert(rows, p.(stock := s)), p.id, fetched, draw) == Ok(p.(stock := s))
  {
  }

  /** A product created on the normal path, against the same external list that findAll
      then reads, is shown by findAll as it was saved. */
  lemma CreatedThenListed(rows: seq<Product>, items: seq<ExternalItem>, draws: seq<int>, dto: NewProduct, stockDraw: int)
    requires StockDraws(draws, |items|)
    ensures var p := NewRow(dto, AllocatedId(rows, Fetched(RawIdsOf(items))), stockDraw);
      p in ListAll(Fetched(items), rows + [p], draws).value
  {
  }

  /** After remove, findOne of the id no longer sees a local row: it fails with NotFound
      when the catalog has no such item, and shows the external item otherwise. */
  lemma RemovedThenRead(rows: seq<Product>, id: int, fetched: Fetch<ExternalItem>, draw: int)
    requires DistinctIds(rows) && id in Ids(rows)
    requires IsStockDraw(draw)
    ensures !fetched.Fetched? ==> GetOne(Delete(rows, id), id, fetched, draw) == Err(NotFound)
    ensures fetched.Fetched? ==> GetOne(Delete(rows, id), id, fetched, draw) == Ok(Synthesize(fetched.value, draw))
  {
  }
}
