/** The read side of the products service: findAll merges the external list with the
    local rows, findOne resolves a single id. Local rows always win over external items. */
module Reconcile {
  import opened Common
  import opened Catalog
  import opened Entities
  import opened LocalTable

  /** One stock draw per external item, each a value of Math.floor(Math.random() * 100). */
  predicate StockDraws(draws: seq<int>, n: nat)
  {
    |draws| == n && forall i :: 0 <= i < n ==> IsStockDraw(draws[i])
  }

  /** The entry emitted for one external item: the local row with its id if there is
      one, otherwise a synthesized non-local product. */
  function Resolve(e: ExternalItem, locals: seq<Product>, draw: int): (p: Product)
    ensures p.id == e.id
    ensures e.id in Ids(locals) ==> Lookup(locals, e.id) == Some(p)
    ensures e.id !in Ids(locals) ==> CopiesExternal(p, e) && !p.isLocal && p.stock == draw
  {
    match Lookup(locals, e.id)
    case Some(local) => local
    case None => Synthesize(e, draw)
  }

  /** externalProducts.map(...): one entry per external item, in catalog order. */
  function MapExternal(items: seq<ExternalItem>, locals: seq<Product>, draws: seq<int>): (mapped: seq<Product>)
    requires StockDraws(draws, |items|)
    ensures |mapped| == |items|
    ensures forall i :: 0 <= i < |items| ==> mapped[i].id == items[i].id
    ensures forall i :: 0 <= i < |items| && items[i].id in Ids(locals) ==>
      Lookup(locals, items[i].id) == Some(mapped[i])
    ensures forall i :: 0 <= i < |items| && items[i].id !in Ids(locals) ==>
      CopiesExternal(mapped[i], items[i]) && !mapped[i].isLocal && IsStockDraw(mapped[i].stock)
  {
    seq(|items|, i requires 0 <= i < |items| => Resolve(items[i], locals, draws[i]))
  }

  /** localProducts.filter(...): the local rows whose id is not in `shown`, in table order. */
  function KeepUnmatched(locals: seq<Product>, shown: set<int>): (kept: seq<Product>)
    ensures forall p :: p in kept <==> p in locals && p.id !in shown
    ensures |kept| <= |locals|
  {
    if |locals| == 0 then []
    else
      var rest := KeepUnmatched(locals[1..], shown);
      assert forall p :: p in locals <==> p == locals[0] || p in locals[1..];
      (if locals[0].id in shown then [] else [locals[0]]) + rest
  }

  /** findAll: the mapped external list followed by the local rows it does not already
      show; a failed catalog call fails the whole read. */
  function ListAll(fetched: Fetch<seq<ExternalItem>>, locals: seq<Product>, draws: seq<int>): (r: Result<seq<Product>>)
    requires fetched.Fetched? ==> StockDraws(draws, |fetched.value|)
    ensures r.Ok? <==> fetched.Fetched?
    ensures r.Err? ==> r.error == ServiceUnavailable
    ensures r.Ok? ==> |r.value| >= |fetched.value|
  {
    match fetched
    case Fetched(items) =>
      var mapped := MapExternal(items, locals, draws);
      Ok(mapped + KeepUnmatched(locals, Ids(mapped)))
    case _ => Err(ServiceUnavailable)
  }

  /** The filter keeps table order: it distributes over concatenation. */
  lemma {:induction false} KeepUnmatchedAppend(a: seq<Product>, b: seq<Product>, shown: set<int>)
    ensures KeepUnmatched(a + b, shown) == KeepUnmatched(a, shown) + KeepUnmatched(b, shown)
  {
    if |a| == 0 {
      assert a + b == b;
    } else {
      assert (a + b)[1..] == a[1..] + b;
      KeepUnmatchedAppend(a[1..], b, shown);
    }
  }

  /** The filter keeps the primary key of the table. */
  lemma {:induction false} KeepUnmatchedDistinct(locals: seq<Product>, shown: set<int>)
    requires DistinctIds(locals)
    ensures DistinctIds(KeepUnmatched(locals, shown))
  {
    if |locals| > 0 {
      KeepUnmatchedDistinct(locals[1..], shown);
      var rest := KeepUnmatched(locals[1..], shown);
      forall p | p in rest ensures p.id != locals[0].id {
        var k :| 0 <= k < |locals[1..]| && locals[1..][k] == p;
        assert locals[k + 1] == p;
      }
    }
  }

  /** A list none of whose ids is shown passes the filter whole. */
  lemma {:induction false} KeepUnmatchedKeepsAll(locals: seq<Product>, shown: set<int>)
    requires forall p :: p in locals ==> p.id !in shown
    ensures KeepUnmatched(locals, shown) == locals
  {
    if |locals| > 0 {
      assert locals[0] in locals;
      assert forall p :: p in locals[1..] ==> p in locals;
      KeepUnmatchedKeepsAll(locals[1..], shown);
    }
  }

  /** Delete passes over a first row with another id. */
  lemma DeletePastHead(rows: seq<Product>, id: int)
    requires |rows| > 0 && rows[0].id != id
    ensures Delete(rows, id) == [rows[0]] + Delete(rows[1..], id)
  {
    var tail := rows[1..];
    match IndexOf(tail, id)
    case None =>
      assert IndexOf(rows, id).None?;
    case Some(k) =>
      assert IndexOf(rows, id) == Some(k + 1);
      assert rows[..k + 1] + rows[k + 2..] == [rows[0]] + (tail[..k] + tail[k + 1..]);
  }

  /** Under the primary key, removing a row is the in-order filter that drops its id:
      the remaining rows keep their order, so findAll lists them as before. */
  lemma {:induction false} DeleteKeepsOrder(rows: seq<Product>, id: int)
    requires DistinctIds(rows)
    ensures Delete(rows, id) == KeepUnmatched(rows, {id})
  {
    if |rows| > 0 {
      var tail := rows[1..];
      assert DistinctIds(tail) by {
        forall a, b | 0 <= a < b < |tail| ensures tail[a].id != tail[b].id {
          assert tail[a] == rows[a + 1] && tail[b] == rows[b + 1];
        }
      }
      if rows[0].id == id {
        forall p | p in tail ensures p.id != id {
          var k :| 0 <= k < |tail| && tail[k] == p;
          assert rows[k + 1] == p;
        }
        KeepUnmatchedKeepsAll(tail, {id});
        assert KeepUnmatched(rows, {id}) == KeepUnmatched(tail, {id});
        assert IndexOf(rows, id) == Some(0);
        assert rows[..0] + rows[1..] == tail;
      } else {
        DeleteKeepsOrder(tail, id);
        DeletePastHead(rows, id);
        assert KeepUnmatched(rows, {id}) == [rows[0]] + KeepUnmatched(tail, {id});
      }
    }
  }

  /** The ids findAll's filter tests are exactly the external ids. */
  lemma MappedIds(items: seq<ExternalItem>, locals: seq<Product>, draws: seq<int>)
    requires StockDraws(draws, |items|)
    ensures Ids(MapExternal(items, locals, draws)) == ExternalIds(items)
  {
  }

  /** The layout of a successful findAll: one entry per external item in catalog order,
      the local row where one has that id and a synthesized product otherwise; then
      exactly the local rows with no external id, in table order. */
  lemma ListAllLayout(items: seq<ExternalItem>, locals: seq<Product>, draws: seq<int>)
    requires StockDraws(draws, |items|)
    ensures ListAll(Fetched(items), locals, draws).Ok?
    ensures var v := ListAll(Fetched(items), locals, draws).value;
      && v == MapExternal(items, locals, draws) + KeepUnmatched(locals, ExternalIds(items))
      && |v| == |items| + |KeepUnmatched(locals, ExternalIds(items))|
      && (forall i :: 0 <= i < |items| ==> v[i].id == items[i].id)
      && (forall i :: 0 <= i < |items| && items[i].id in Ids(locals) ==> Lookup(locals, items[i].id) == Some(v[i]))
      && (forall i :: 0 <= i < |items| && items[i].id !in Ids(locals) ==>
            CopiesExternal(v[i], items[i]) && !v[i].isLocal && IsStockDraw(v[i].stock))
      && (forall p :: p in v[|items|..] <==> p in locals && p.id !in ExternalIds(items))
  {
    MappedIds(items, locals, draws);
    var v := ListAll(Fetched(items), locals, draws).value;
    assert v[|items|..] == KeepUnmatched(locals, ExternalIds(items));
  }

  /** With distinct external ids and a table keyed by id, findAll never shows an id twice. */
  lemma ListAllDistinctIds(items: seq<ExternalItem>, locals: seq<Product>, draws: seq<int>)
    requires StockDraws(draws, |items|)
    requires DistinctExternalIds(items) && DistinctIds(locals)
    ensures DistinctIds(ListAll(Fetched(items), locals, draws).value)
  {
    ListAllLayout(items, locals, draws);
    var v := ListAll(Fetched(items), locals, draws).value;
    var n := |items|;
    var kept := KeepUnmatched(locals, ExternalIds(items));
    KeepUnmatchedDistinct(locals, ExternalIds(items));
    assert v[n..] == kept;
    forall i, j | 0 <= i < j < |v| ensures v[i].id != v[j].id {
      if j < n {
        assert items[i].id != items[j].id;
      } else if i < n {
        assert v[j] == kept[j - n] && kept[j - n] in kept;
        assert items[i] in items;
      } else {
        assert v[i] == kept[i - n] && v[j] == kept[j - n];
      }
    }
  }

  /** Under the primary key, no local row is lost: every row appears in findAll's result. */
  lemma ListAllShowsEveryLocalRow(items: seq<ExternalItem>, locals: seq<Product>, draws: seq<int>)
    requires StockDraws(draws, |items|)
    requires DistinctIds(locals)
    ensures forall p :: p in locals ==> p in ListAll(Fetched(items), locals, draws).value
  {
  }

  /** Every product findAll flags as local is a row of the table, and every external id
      is shown. */
  lemma ListAllLocalFlag(items: seq<ExternalItem>, locals: seq<Product>, draws: seq<int>)
    requires StockDraws(draws, |items|)
    ensures forall p :: p in ListAll(Fetched(items), locals, draws).value && p.isLocal ==> p in locals
    ensures ExternalIds(items) <= Ids(ListAll(Fetched(items), locals, draws).value)
  {
  }

  /** An empty table and a one-item catalog give one non-local product with that item's
      fields and a stock in [0, 99]. */
  lemma ListAllExternalOnly(e: ExternalItem, draw: int)
    requires IsStockDraw(draw)
    ensures var r := ListAll(Fetched([e]), [], [draw]);
      r.Ok? && |r.value| == 1 && CopiesExternal(r.value[0], e) && !r.value[0].isLocal && 0 <= r.value[0].stock <= 99
  {
  }

  /** A local row with the id of the only external item is shown in its place, stock and all. */
  lemma ListAllLocalWins(e: ExternalItem, local: Product, draw: int)
    requires IsStockDraw(draw) && local.id == e.id
    ensures ListAll(Fetched([e]), [local], [draw]) == Ok([local])
  {
    ListAllLayout([e], [local], [draw]);
    LookupFindsRow([local], local);
    var v := ListAll(Fetched([e]), [local], [draw]).value;
    assert local.id in Ids([local]);
    assert v[0] == local;
    assert KeepUnmatched([local], ExternalIds([e])) == [];
    assert v == [v[0]];
  }

  /** findOne: the local row if there is one; otherwise the external item with a
      synthesized stock; any failure of the external lookup is reported as NotFound. */
  function GetOne(rows: seq<Product>, id: int, fetched: Fetch<ExternalItem>, draw: int): (r: Result<Product>)
    requires IsStockDraw(draw)
    ensures id in Ids(rows) ==> r.Ok? && r.value in rows && r.value.id == id
    ensures id !in Ids(rows) && fetched.Fetched? ==>
      r.Ok? && CopiesExternal(r.value, fetched.value) && !r.value.isLocal && IsStockDraw(r.value.stock)
    ensures r.Ok? <==> id in Ids(rows) || fetched.Fetched?
    ensures r.Err? ==> r.error == NotFound
  {
    match Lookup(rows, id)
    case Some(local) => Ok(local)
    case None =>
      match fetched
      case Fetched(e) => Ok(Synthesize(e, draw))
      case _ => Err(NotFound)
  }

  /** A local row is returned verbatim without consulting the catalog: neither the
      catalog's answer nor the draw changes the result. */
  lemma GetOneLocalIgnoresCatalog(rows: seq<Product>, p: Product, f1: Fetch<ExternalItem>, d1: int, f2: Fetch<ExternalItem>, d2: int)
    requires DistinctIds(rows) && p in rows
    requires IsStockDraw(d1) && IsStockDraw(d2)
    ensures GetOne(rows, p.id, f1, d1) == GetOne(rows, p.id, f2, d2) == Ok(p)
  {
  }

  /** Two reads of an external-only id agree on everything but the synthesized stock. */
  lemma GetOneRepeatable(rows: seq<Product>, id: int, fetched: Fetch<ExternalItem>, d1: int, d2: int)
    requires IsStockDraw(d1) && IsStockDraw(d2)
    requires id !in Ids(rows)
    ensures GetOne(rows, id, fetched, d1).Ok? == GetOne(rows, id, fetched, d2).Ok?
    ensures GetOne(rows, id, fetched, d1).Ok? ==>
      GetOne(rows, id, fetched, d1).value.(stock := 0) == GetOne(rows, id, fetched, d2).value.(stock := 0)
  {
  }
}
