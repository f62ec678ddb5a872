/** The write side of the products service: a class over the local table whose
    methods create, restock (promoting external items) and remove products. The
    external catalog, the database's failures, the clock and Math.random reach each
    method as parameters. */
module Service {
  import opened Common
  import opened Catalog
  import opened Entities
  import opened LocalTable
  import opened IdAllocation

  /** Every row was written by this service: flagged local, with a non-negative stock. */
  predicate AllOwned(rows: seq<Product>)
  {
    forall p :: p in rows ==> p.isLocal && p.stock >= 0
  }

  class ProductsService {
    /** The rows of the products table, in the database's natural order. */
    var rows: seq<Product>

    ghost predicate Valid()
      reads this
    {
      DistinctIds(rows)
    }

    constructor (initial: seq<Product>)
      requires DistinctIds(initial)
      ensures Valid() && rows == initial
    {
      rows := initial;
    }

    /** create. On the normal path the id is AllocatedId of the table and of the external
        id list (a failed list counts as no ids) and the new row is appended. If the
        table query or the save throws, the fallback id is used instead, and that save
        replaces any row already holding the id; only a failure of that second save
        reaches the caller. */
    method Create(dto: NewProduct, queryOk: bool, catalog: Fetch<seq<RawId>>, stockDraw: int, saveOk: bool,
                  now: int, idDraw: int, fallbackStockDraw: int, fallbackSaveOk: bool)
      returns (r: Result<Product>)
      requires Valid()
      requires IsStockDraw(stockDraw) && IsStockDraw(fallbackStockDraw) && 0 <= idDraw < FallbackSpread
      modifies this
      ensures Valid()
      ensures queryOk && saveOk ==>
        && r == Ok(NewRow(dto, AllocatedId(old(rows), catalog), stockDraw))
        && rows == old(rows) + [r.value]
      ensures !(queryOk && saveOk) && fallbackSaveOk ==>
        && r == Ok(NewRow(dto, FallbackId(now, idDraw), fallbackStockDraw))
        && rows == Upsert(old(rows), r.value)
      ensures !(queryOk && saveOk) && !fallbackSaveOk ==> r == Err(PersistenceError) && rows == old(rows)
      ensures r.Ok? ==>
        && CopiesRequest(r.value, dto) && r.value.isLocal && IsStockDraw(r.value.stock)
        && r.value.id >= BaseId
        && Lookup(rows, r.value.id) == Some(r.value)
        && forall id :: id != r.value.id ==> Lookup(rows, id) == old(Lookup(rows, id))
      ensures r.Err? ==> r.error == PersistenceError
      ensures old(AllOwned(rows)) ==> AllOwned(rows)
    {
      if queryOk {
        var highestLocal := HighestLocalId(rows);
        var highestExternal := 0;
        // An entry whose id cannot be read throws inside the inner try; the catch
        // leaves highestExternal at 0.
        if catalog.Fetched? && Readable(catalog.value) {
          var ids := PositiveIds(catalog.value);
          if |ids| > 0 {
            highestExternal := MaxOf(ids);
          }
        }
        var finalId := NextId(highestLocal, highestExternal);
        var product := NewRow(dto, finalId, stockDraw);
        if saveOk {
          AllocatedIdIsFresh(rows, catalog);
          rows := Upsert(rows, product);
          return Ok(product);
        }
      }
      var fallbackId := FallbackId(now, idDraw);
      var product := NewRow(dto, fallbackId, fallbackStockDraw);
      if !fallbackSaveOk {
        return Err(PersistenceError);
      }
      rows := Upsert(rows, product);
      r := Ok(product);
    }

    /** updateStock. A local row gets the new stock and nothing else changes; an id
        with no local row is promoted from the external item with the new stock; a
        failed external lookup is NotFound. A failed save is a persistence error on
        both paths (the promotion's save is returned un-awaited, so the catch never
        sees it). */
    method UpdateStock(id: int, stock: int, fetched: Fetch<ExternalItem>, saveOk: bool)
      returns (r: Result<Product>)
      requires Valid() && stock >= 0
      modifies this
      ensures Valid()
      ensures id in old(Ids(rows)) ==>
        var updated := old(Lookup(rows, id)).value.(stock := stock);
        if saveOk then
          && r == Ok(updated)
          && rows == Upsert(old(rows), updated)
          && |rows| == |old(rows)|
          && Lookup(rows, id) == Some(updated)
          && forall k :: k != id ==> Lookup(rows, k) == old(Lookup(rows, k))
        else
          r == Err(PersistenceError) && rows == old(rows)
      ensures id !in old(Ids(rows)) && fetched.Fetched? ==>
        var promoted := Promote(fetched.value, stock);
        if saveOk then
          && r == Ok(promoted)
          && rows == Upsert(old(rows), promoted)
          && (fetched.value.id == id ==> rows == old(rows) + [promoted])
        else
          r == Err(PersistenceError) && rows == old(rows)
      ensures id !in old(Ids(rows)) && !fetched.Fetched? ==> r == Err(NotFound) && rows == old(rows)
      ensures old(AllOwned(rows)) ==> AllOwned(rows)
    {
      var product := Lookup(rows, id);
      if product.None? {
        if !fetched.Fetched? {
          return Err(NotFound);
        }
        var newProduct := Promote(fetched.value, stock);
        if !saveOk {
          return Err(PersistenceError);
        }
        rows := Upsert(rows, newProduct);
        return Ok(newProduct);
      }
      var updated := product.value.(stock := stock);
      if !saveOk {
        return Err(PersistenceError);
      }
      rows := Upsert(rows, updated);
      r := Ok(updated);
    }

    /** remove. Only the local table is consulted: an id with no local row is NotFound
        whatever the external catalog holds; otherwise exactly that row is dropped. */
    method Remove(id: int, deleteOk: bool) returns (r: Result<()>)
      requires Valid()
      modifies this
      ensures Valid()
      ensures id !in old(Ids(rows)) ==> r == Err(NotFound) && rows == old(rows)
      ensures id in old(Ids(rows)) && deleteOk ==>
        && r == Ok(())
        && rows == Delete(old(rows), id)
        && |rows| == |old(rows)| - 1
        && id !in Ids(rows)
        && forall k :: k != id ==> Lookup(rows, k) == old(Lookup(rows, k))
      ensures id in old(Ids(rows)) && !deleteOk ==> r == Err(PersistenceError) && rows == old(rows)
      ensures old(AllOwned(rows)) ==> AllOwned(rows)
    {
      var product := Lookup(rows, id);
      if product.None? {
        return Err(NotFound);
      }
      if !deleteOk {
        return Err(PersistenceError);
      }
      rows := Delete(rows, id);
      r := Ok(());
    }
  }
}
